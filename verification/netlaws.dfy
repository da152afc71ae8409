/** Reconciliation converges: updates reach what a fresh apply reaches, also after interruptions. */
module NetLaws {
  import opened NetUtil
  import opened NetSpec

  // ----- What a block of operations does -----

  function SetOf<T(==)>(s: seq<T>): set<T> { set x | x in s }

  lemma {:induction false} AfterAddAddrs(k: Kernel, ps: seq<Prefix>)
    ensures Run(k, AddAddrs(ps)) == k.(addrs := k.addrs + SetOf(ps))
    decreases |ps|
  {
    if ps == [] {
      assert k.addrs + SetOf(ps) == k.addrs;
    } else {
      AfterAddAddrs(Do(k, AddAddr(ps[0])), ps[1..]);
      assert k.addrs + {ps[0]} + SetOf(ps[1..]) == k.addrs + SetOf(ps);
    }
  }

  lemma {:induction false} AfterDelAddrs(k: Kernel, ps: seq<Prefix>)
    ensures Run(k, DelAddrs(ps)) == k.(addrs := k.addrs - SetOf(ps))
    decreases |ps|
  {
    if ps == [] {
      assert k.addrs - SetOf(ps) == k.addrs;
    } else {
      AfterDelAddrs(Do(k, DelAddr(ps[0])), ps[1..]);
      assert k.addrs - {ps[0]} - SetOf(ps[1..]) == k.addrs - SetOf(ps);
    }
  }

  function RuleSet(rs: seq<RuleSpec>): set<RuleSpec> { set r | r in rs :: Rule(r) }

  lemma {:induction false} AfterAddRules(k: Kernel, rs: seq<RuleSpec>)
    ensures Run(k, AddRules(rs)) == k.(rules := k.rules + RuleSet(rs))
    decreases |rs|
  {
    if rs == [] {
      assert k.rules + RuleSet(rs) == k.rules;
    } else {
      AfterAddRules(Do(k, AddRule(rs[0])), rs[1..]);
      assert rs == [rs[0]] + rs[1..];
      assert k.rules + {Rule(rs[0])} + RuleSet(rs[1..]) == k.rules + RuleSet(rs);
    }
  }

  lemma {:induction false} AfterDelRules(k: Kernel, rs: seq<RuleSpec>)
    ensures Run(k, DelRules(rs)) == k.(rules := k.rules - RuleSet(rs))
    decreases |rs|
  {
    if rs == [] {
      assert k.rules - RuleSet(rs) == k.rules;
    } else {
      AfterDelRules(Do(k, DelRule(rs[0])), rs[1..]);
      assert rs == [rs[0]] + rs[1..];
      assert k.rules - {Rule(rs[0])} - RuleSet(rs[1..]) == k.rules - RuleSet(rs);
    }
  }

  function KeySet(rs: seq<Route>): set<RouteKey> { set r | r in rs :: Key(r, 0) }

  lemma {:induction false} AfterDelRoutes(k: Kernel, rs: seq<Route>)
    ensures Run(k, DelRoutes(rs)) == k.(routes := k.routes - KeySet(rs))
    decreases |rs|
  {
    if rs == [] {
      assert k.routes - KeySet(rs) == k.routes;
    } else {
      AfterDelRoutes(Do(k, DelRoute(rs[0], 0)), rs[1..]);
      assert rs == [rs[0]] + rs[1..];
      assert k.routes - {Key(rs[0], 0)} - KeySet(rs[1..]) == k.routes - KeySet(rs);
    }
  }

  type Routes = map<RouteKey, (nat, nat)>

  function PutAll(m: Routes, rs: seq<Route>): Routes
    decreases |rs|
  {
    if rs == [] then m else PutAll(m[Key(rs[0], 0) := (rs[0].mtu, rs[0].advmss)], rs[1..])
  }

  lemma {:induction false} AfterPutRoutes(k: Kernel, rs: seq<Route>)
    ensures Run(k, PutRoutes(rs)) == k.(routes := PutAll(k.routes, rs))
    decreases |rs|
  {
    if rs != [] { AfterPutRoutes(Do(k, PutRoute(rs[0], 0)), rs[1..]); }
  }

  /** No two routes share a key. */
  ghost predicate UniqueKeys(rs: seq<Route>) {
    forall i, j :: 0 <= i < j < |rs| ==> Key(rs[i], 0) != Key(rs[j], 0)
  }

  lemma {:induction false} PutAllKeeps(m: Routes, rs: seq<Route>, key: RouteKey)
    requires key !in KeySet(rs)
    ensures key in PutAll(m, rs) <==> key in m
    ensures key in m ==> PutAll(m, rs)[key] == m[key]
    decreases |rs|
  {
    if rs != [] {
      assert rs == [rs[0]] + rs[1..];
      PutAllKeeps(m[Key(rs[0], 0) := (rs[0].mtu, rs[0].advmss)], rs[1..], key);
    }
  }

  lemma {:induction false} PutAllHas(m: Routes, rs: seq<Route>, r: Route)
    requires UniqueKeys(rs) && r in rs
    ensures Key(r, 0) in PutAll(m, rs) && PutAll(m, rs)[Key(r, 0)] == (r.mtu, r.advmss)
    decreases |rs|
  {
    var m' := m[Key(rs[0], 0) := (rs[0].mtu, rs[0].advmss)];
    if r == rs[0] {
      PutAllKeeps(m', rs[1..], Key(r, 0));
    } else {
      assert rs == [rs[0]] + rs[1..];
      PutAllHas(m', rs[1..], r);
    }
  }

  // ----- Apply and Update -----

  function WithShared(m: Routes, s: Option<Shared>): Routes {
    if s.Some? then m[Key(SharedRoute(s.value), s.value.table) := (0, 0)] else m
  }

  function Applied(k: Kernel, o: Options): Kernel {
    Kernel(true, k.addrs + SetOf(o.addresses), WithShared(PutAll(k.routes, o.routes4 + o.routes6), o.shared),
           k.rules + RuleSet(RuleSpecs(o.shared)),
           if o.shared.Some? then k.local + {LOCAL_RULE_PRIORITY} - {0} else k.local,
           k.forward4 || o.forward4, k.forward6 || o.forward6)
  }

  lemma AfterShared(k: Kernel, s: Shared)
    ensures Run(k, SharedOps(s)) ==
            k.(local := k.local + {LOCAL_RULE_PRIORITY} - {0}, routes := WithShared(k.routes, Some(s)),
              rules := k.rules + RuleSet(RuleSpecs(Some(s))))
  {
    hide RuleSpecs;
    var first := [AddLocal(LOCAL_RULE_PRIORITY), DelLocal(0), PutRoute(SharedRoute(s), s.table)];
    RunConcat(k, first, AddRules(RuleSpecs(Some(s))));
    var k1 := Do(k, first[0]);
    var k2 := Do(k1, first[1]);
    var k3 := Do(k2, first[2]);
    assert first[1..][0] == first[1] && first[1..][1..] == [first[2]] && first[1..][1..][1..] == [];
    assert Run(k, first) == Run(k1, first[1..]) == Run(k2, [first[2]]) == Run(k3, []) == k3;
    AfterAddRules(k3, RuleSpecs(Some(s)));
  }

  lemma AfterForward(k: Kernel, o: Options)
    ensures Run(k, ForwardOps(o)) == k.(forward4 := k.forward4 || o.forward4, forward6 := k.forward6 || o.forward6)
  {
    var a, b := if o.forward4 then [SetForward4] else [], if o.forward6 then [SetForward6] else [];
    RunConcat(k, a, b);
    assert Run(k, a) == k.(forward4 := k.forward4 || o.forward4) by { if o.forward4 { assert a[1..] == []; } }
    var k1 := Run(k, a);
    assert Run(k1, b) == k1.(forward6 := k1.forward6 || o.forward6) by { if o.forward6 { assert b[1..] == []; } }
  }

  /** A complete Apply. */
  lemma AfterApply(k: Kernel, o: Options)
    ensures Run(k, ApplyOps(o)) == Applied(k, o)
  {
    hide Run, AddAddrs, PutRoutes, SharedOps, ForwardOps, RuleSpecs, PutAll;
    var rs := o.routes4 + o.routes6;
    var shared := if o.shared.Some? then SharedOps(o.shared.value) else [];
    var k1 := k.(up := true);
    RunOne(k, LinkUp);
    AfterAddAddrs(k1, o.addresses);
    var k2 := Run(k1, AddAddrs(o.addresses));
    AfterPutRoutes(k2, rs);
    var k3 := Run(k2, PutRoutes(rs));
    if o.shared.Some? {
      AfterShared(k3, o.shared.value);
    } else {
      RunNone(k3);
      assert RuleSet(RuleSpecs(o.shared)) == {} by { NoSpecs(); }
    }
    var k4 := Run(k3, shared);
    AfterForward(k4, o);
    RunConcat(k, [LinkUp], AddAddrs(o.addresses));
    RunConcat(k, [LinkUp] + AddAddrs(o.addresses), PutRoutes(rs));
    RunConcat(k, [LinkUp] + AddAddrs(o.addresses) + PutRoutes(rs), shared);
    RunConcat(k, [LinkUp] + AddAddrs(o.addresses) + PutRoutes(rs) + shared, ForwardOps(o));
    assert k3.rules + {} == k3.rules;
  }

  lemma RunOne(k: Kernel, op: Op)
    ensures Run(k, [op]) == Do(k, op)
  {
    assert [op][1..] == [];
  }

  lemma RunNone(k: Kernel)
    ensures Run(k, []) == k
  {
  }

  lemma NoSpecs()
    ensures RuleSet(RuleSpecs(None)) == {}
  {
  }

  function Removed(k: Kernel, prev: Options, next: Options): Kernel {
    var routes := k.routes - KeySet(StaleRoutes(prev.routes4, next.routes4) + StaleRoutes(prev.routes6, next.routes6));
    k.(addrs := k.addrs - SetOf(MissingPrefixes(next.addresses, prev.addresses)),
       rules := k.rules - RuleSet(StaleRules(RuleSpecs(prev.shared), RuleSpecs(next.shared))),
       routes := if SharedStale(prev.shared, next.shared)
         then routes - {Key(SharedRoute(prev.shared.value), prev.shared.value.table)} else routes)
  }

  lemma AfterRemove(k: Kernel, prev: Options, next: Options)
    ensures Run(k, RemoveOps(prev, next)) == Removed(k, prev, next)
  {
    hide Run, DelAddrs, DelRoutes, DelRules, RuleSpecs, StaleRoutes, StaleRules, MissingPrefixes;
    var rs := StaleRoutes(prev.routes4, next.routes4) + StaleRoutes(prev.routes6, next.routes6);
    var ps := MissingPrefixes(next.addresses, prev.addresses);
    var us := StaleRules(RuleSpecs(prev.shared), RuleSpecs(next.shared));
    var last := if SharedStale(prev.shared, next.shared)
      then [DelRoute(SharedRoute(prev.shared.value), prev.shared.value.table)] else [];
    AfterDelRoutes(k, rs);
    var k1 := Run(k, DelRoutes(rs));
    AfterDelAddrs(k1, ps);
    var k2 := Run(k1, DelAddrs(ps));
    AfterDelRules(k2, us);
    var k3 := Run(k2, DelRules(us));
    if SharedStale(prev.shared, next.shared) { RunOne(k3, last[0]); } else { RunNone(k3); }
    RunConcat(k, DelRoutes(rs), DelAddrs(ps));
    RunConcat(k, DelRoutes(rs) + DelAddrs(ps), DelRules(us));
    RunConcat(k, DelRoutes(rs) + DelAddrs(ps) + DelRules(us), last);
  }

  /** A complete Update. */
  lemma AfterUpdate(k: Kernel, prev: Options, next: Options)
    ensures Run(k, UpdateOps(prev, next)) == Applied(Removed(k, prev, next), Added(prev, next))
  {
    hide Run, RemoveOps, ApplyOps, Removed, Applied, Added;
    RunConcat(k, RemoveOps(prev, next), ApplyOps(Added(prev, next)));
    AfterRemove(k, prev, next);
    AfterApply(Removed(k, prev, next), Added(prev, next));
  }

  // ----- Convergence -----

  function RoutesOf(o: Options): seq<Route> { o.routes4 + o.routes6 }

  /**
   * What configuration guarantees: each list has its own family and unique keys, and the shared table is not the main
   * one.
   */
  ghost predicate ValidOptions(o: Options) {
    && UniqueKeys(o.routes4) && UniqueKeys(o.routes6)
    && (forall i :: 0 <= i < |o.routes4| ==> o.routes4[i].prefix.P4?)
    && (forall i :: 0 <= i < |o.routes6| ==> o.routes6[i].prefix.P6?)
    && (o.shared.Some? ==> o.shared.value.table != 0)
  }

  /** The kernel has nothing that o configures. */
  ghost predicate Free(k: Kernel, o: Options) {
    && SetOf(o.addresses) !! k.addrs
    && OwnKeys(o) !! k.routes.Keys
    && RuleSet(RuleSpecs(o.shared)) !! k.rules
  }

  /** The keys of all routes that o configures. */
  ghost function OwnKeys(o: Options): set<RouteKey> {
    KeySet(RoutesOf(o)) + (if o.shared.Some? then {Key(SharedRoute(o.shared.value), o.shared.value.table)} else {})
  }

  /** What one Apply of o to the kernel base leaves, sysctls and the local rule aside: those are never reverted. */
  ghost predicate Converged(base: Kernel, o: Options, k: Kernel) {
    var target := Applied(base, o);
    && k.up && k.addrs == target.addrs && k.routes == target.routes && k.rules == target.rules
    && (o.forward4 ==> k.forward4) && (o.forward6 ==> k.forward6)
    && (o.shared.Some? ==> LOCAL_RULE_PRIORITY in k.local && 0 !in k.local)
  }

  lemma ApplyConverges(base: Kernel, o: Options)
    ensures Converged(base, o, Run(base, ApplyOps(o)))
  {
    hide Run, ApplyOps, PutAll, RuleSpecs;
    AfterApply(base, o);
  }

  /**
   * A state on the way from prev to next: everything else is as in base, and what both have is there.
   */
  ghost predicate Between(base: Kernel, prev: Options, next: Options, k: Kernel) {
    && BetweenAddrs(base, prev, next, k.addrs)
    && BetweenRoutes(base, prev, next, k.routes)
    && BetweenRules(base, prev, next, k.rules)
    && (prev.forward4 ==> k.forward4) && (prev.forward6 ==> k.forward6)
  }

  ghost predicate BetweenAddrs(base: Kernel, prev: Options, next: Options, addrs: set<Prefix>) {
    && (forall p :: p !in prev.addresses && p !in next.addresses ==> (p in addrs <==> p in base.addrs))
    && (forall p :: p in prev.addresses && p in next.addresses ==> p in addrs)
  }

  ghost predicate BetweenRoutes(base: Kernel, prev: Options, next: Options, routes: Routes) {
    && (forall key :: key !in OwnKeys(prev) && key !in OwnKeys(next) ==> SameAt(base.routes, routes, key))
    && (forall r :: r in RoutesOf(prev) && r in RoutesOf(next) ==>
            Key(r, 0) in routes && routes[Key(r, 0)] == (r.mtu, r.advmss))
  }

  ghost predicate BetweenRules(base: Kernel, prev: Options, next: Options, rules: set<RuleSpec>) {
    base.rules <= rules <= base.rules + RuleSet(RuleSpecs(prev.shared)) + RuleSet(RuleSpecs(next.shared))
  }

  predicate SameAt(m: Routes, n: Routes, key: RouteKey) {
    (key in m <==> key in n) && (key in m ==> n[key] == m[key])
  }

  lemma AllUnique(o: Options)
    requires ValidOptions(o)
    ensures UniqueKeys(RoutesOf(o))
  {
  }

  /** The routes after Apply, key by key. */
  lemma AppliedRoutes(m: Routes, o: Options, key: RouteKey)
    requires ValidOptions(o)
    ensures key !in OwnKeys(o) ==> SameAt(m, WithShared(PutAll(m, RoutesOf(o)), o.shared), key)
    ensures o.shared.Some? && key == Key(SharedRoute(o.shared.value), o.shared.value.table) ==>
              key in WithShared(PutAll(m, RoutesOf(o)), o.shared)
                && WithShared(PutAll(m, RoutesOf(o)), o.shared)[key] == (0, 0)
    ensures forall r :: r in RoutesOf(o) && key == Key(r, 0) ==>
              key in WithShared(PutAll(m, RoutesOf(o)), o.shared)
                && WithShared(PutAll(m, RoutesOf(o)), o.shared)[key] == (r.mtu, r.advmss)
  {
    hide PutAll;
    AllUnique(o);
    if key !in KeySet(RoutesOf(o)) { PutAllKeeps(m, RoutesOf(o), key); }
    forall r | r in RoutesOf(o) && key == Key(r, 0)
      ensures key in WithShared(PutAll(m, RoutesOf(o)), o.shared)
              && WithShared(PutAll(m, RoutesOf(o)), o.shared)[key] == (r.mtu, r.advmss)
    {
      PutAllHas(m, RoutesOf(o), r);
    }
  }

  /** Where the previous options have converged, the way to the next ones begins. */
  lemma ConvergedIsBetween(base: Kernel, prev: Options, next: Options, k: Kernel)
    requires ValidOptions(prev) && Converged(base, prev, k)
    ensures Between(base, prev, next, k)
  {
    hide PutAll, RuleSpecs;
    forall key | key !in OwnKeys(prev) ensures SameAt(base.routes, k.routes, key) {
      AppliedRoutes(base.routes, prev, key);
    }
    forall r | r in RoutesOf(prev) ensures Key(r, 0) in k.routes && k.routes[Key(r, 0)] == (r.mtu, r.advmss) {
      AppliedRoutes(base.routes, prev, Key(r, 0));
    }
  }

  // ----- Every step stays on the way -----

  /** What the operations of an Update can be. */
  ghost predicate Expected(prev: Options, next: Options, op: Op) {
    match op
    case LinkUp => true
    case AddAddr(p) => p in next.addresses && p !in prev.addresses
    case DelAddr(p) => p in prev.addresses && p !in next.addresses
    case PutRoute(r, table) =>
      || (table == 0 && r in RoutesOf(next) && r !in RoutesOf(prev))
      || (next.shared.Some? && r == SharedRoute(next.shared.value) && table == next.shared.value.table)
    case DelRoute(r, table) =>
      || (table == 0 && r in RoutesOf(prev) && Key(r, 0) !in KeySet(RoutesOf(next)))
      || (prev.shared.Some? && r == SharedRoute(prev.shared.value) && table == prev.shared.value.table
         && SharedStale(prev.shared, next.shared))
    case AddRule(rule) => rule in RuleSpecs(next.shared)
    case DelRule(rule) => rule in RuleSpecs(prev.shared)
    case AddLocal(_) => true
    case DelLocal(_) => true
    case SetForward4 => true
    case SetForward6 => true
  }

  lemma ExpectedStaysBetween(base: Kernel, prev: Options, next: Options, k: Kernel, op: Op)
    requires ValidOptions(prev) && ValidOptions(next) && Free(base, prev) && Free(base, next)
    requires Between(base, prev, next, k) && Expected(prev, next, op)
    ensures Between(base, prev, next, Do(k, op))
  {
    hide RuleSpecs, BetweenRoutes;
    match op
    case PutRoute(r, table) => PutStaysBetween(base, prev, next, k.routes, r, table);
    case DelRoute(r, table) => DelStaysBetween(base, prev, next, k.routes, r, table);
    case _ =>
  }

  lemma PutStaysBetween(base: Kernel, prev: Options, next: Options, m: Routes, r: Route, table: nat)
    requires ValidOptions(prev) && ValidOptions(next) && BetweenRoutes(base, prev, next, m)
             && Expected(prev, next, PutRoute(r, table))
    ensures BetweenRoutes(base, prev, next, m[Key(r, table) := (r.mtu, r.advmss)])
  {
    var n := m[Key(r, table) := (r.mtu, r.advmss)];
    assert Key(r, table) in OwnKeys(next);
    AllUnique(next);
    forall q | q in RoutesOf(prev) && q in RoutesOf(next) ensures Key(q, 0) in n && n[Key(q, 0)] == (q.mtu, q.advmss) {
      if Key(q, 0) == Key(r, table) { SameRoute(RoutesOf(next), q, r); }
    }
  }

  lemma SameRoute(rs: seq<Route>, q: Route, r: Route)
    requires UniqueKeys(rs) && q in rs && r in rs && Key(q, 0) == Key(r, 0)
    ensures q == r
  {
    var i :| 0 <= i < |rs| && rs[i] == q;
    var j :| 0 <= j < |rs| && rs[j] == r;
  }

  lemma DelStaysBetween(base: Kernel, prev: Options, next: Options, m: Routes, r: Route, table: nat)
    requires ValidOptions(prev) && ValidOptions(next) && BetweenRoutes(base, prev, next, m)
             && Expected(prev, next, DelRoute(r, table))
    ensures BetweenRoutes(base, prev, next, m - {Key(r, table)})
  {
    var n := m - {Key(r, table)};
    assert Key(r, table) in OwnKeys(prev);
    forall q | q in RoutesOf(prev) && q in RoutesOf(next) ensures Key(q, 0) in n && n[Key(q, 0)] == (q.mtu, q.advmss) {
      assert Key(q, 0) in KeySet(RoutesOf(next));
    }
  }

  lemma {:induction false} BlockMembers(ps: seq<Prefix>, rs: seq<Route>, us: seq<RuleSpec>)
    ensures forall op :: op in AddAddrs(ps) ==> op.AddAddr? && op.p in ps
    ensures forall op :: op in DelAddrs(ps) ==> op.DelAddr? && op.p in ps
    ensures forall op :: op in PutRoutes(rs) ==> op.PutRoute? && op.r in rs && op.table == 0
    ensures forall op :: op in DelRoutes(rs) ==> op.DelRoute? && op.r in rs && op.table == 0
    ensures forall op :: op in AddRules(us) ==> op.AddRule? && op.rule in us
    ensures forall op :: op in DelRules(us) ==> op.DelRule? && op.rule in us
    decreases |ps| + |rs| + |us|
  {
    if ps != [] || rs != [] || us != [] {
      BlockMembers(if ps == [] then [] else ps[1..], if rs == [] then [] else rs[1..],
        if us == [] then [] else us[1..]);
    }
  }

  lemma UpdateExpected(prev: Options, next: Options, op: Op)
    requires ValidOptions(prev) && ValidOptions(next) && op in UpdateOps(prev, next)
    ensures Expected(prev, next, op)
  {
    hide AddAddrs, DelAddrs, PutRoutes, DelRoutes, AddRules, DelRules, RuleSpecs, StaleRoutes, StaleRules;
    hide MissingPrefixes, MissingRoutes;
    if op in RemoveOps(prev, next) { RemoveExpected(prev, next, op); } else { AddExpected(prev, next, op); }
  }

  lemma RemoveExpected(prev: Options, next: Options, op: Op)
    requires ValidOptions(prev) && ValidOptions(next) && op in RemoveOps(prev, next)
    ensures Expected(prev, next, op)
  {
    hide DelAddrs, DelRoutes, DelRules, RuleSpecs, StaleRoutes, StaleRules, MissingPrefixes;
    var rs := StaleRoutes(prev.routes4, next.routes4) + StaleRoutes(prev.routes6, next.routes6);
    BlockMembers(MissingPrefixes(next.addresses, prev.addresses), rs,
      StaleRules(RuleSpecs(prev.shared), RuleSpecs(next.shared)));
    match op
    case DelAddr(p) => MissingPrefixesAre(next.addresses, prev.addresses, p);
    case DelRoute(r, table) => if r in rs { StaleIsExpected(prev, next, r); }
    case DelRule(rule) => StaleRulesAre(RuleSpecs(prev.shared), RuleSpecs(next.shared), rule);
    case _ =>
  }

  lemma StaleIsExpected(prev: Options, next: Options, r: Route)
    requires ValidOptions(prev) && ValidOptions(next)
    ensures r in StaleRoutes(prev.routes4, next.routes4) + StaleRoutes(prev.routes6, next.routes6)
            <==> r in RoutesOf(prev) && Key(r, 0) !in KeySet(RoutesOf(next))
  {
    StaleRoutesAre(prev.routes4, next.routes4, r);
    StaleRoutesAre(prev.routes6, next.routes6, r);
    KeyFound(next.routes4, r);
    KeyFound(next.routes6, r);
    assert KeySet(RoutesOf(next)) == KeySet(next.routes4) + KeySet(next.routes6);
  }

  lemma KeyFound(rs: seq<Route>, r: Route)
    ensures HasKey(rs, r) <==> Key(r, 0) in KeySet(rs)
  {
  }

  lemma AddExpected(prev: Options, next: Options, op: Op)
    requires ValidOptions(prev) && ValidOptions(next) && op in ApplyOps(Added(prev, next))
    ensures Expected(prev, next, op)
  {
    hide AddAddrs, PutRoutes, AddRules, RuleSpecs, MissingPrefixes, MissingRoutes;
    var a := Added(prev, next);
    BlockMembers(a.addresses, a.routes4 + a.routes6, RuleSpecs(next.shared));
    match op
    case AddAddr(p) => MissingPrefixesAre(prev.addresses, next.addresses, p);
    case PutRoute(r, table) => if r in a.routes4 + a.routes6 { MissingIsExpected(prev, next, r); }
    case _ =>
  }

  lemma MissingIsExpected(prev: Options, next: Options, r: Route)
    requires ValidOptions(prev) && ValidOptions(next)
    ensures r in MissingRoutes(prev.routes4, next.routes4) + MissingRoutes(prev.routes6, next.routes6) <==>
              r in RoutesOf(next) && r !in RoutesOf(prev)
  {
    MissingRoutesAre(prev.routes4, next.routes4, r);
    MissingRoutesAre(prev.routes6, next.routes6, r);
  }

  /** However far an Update gets, it stays between. */
  lemma {:induction false} StoppedStaysBetween(base: Kernel, prev: Options, next: Options, k: Kernel, ops: seq<Op>)
    requires ValidOptions(prev) && ValidOptions(next) && Free(base, prev) && Free(base, next)
             && Between(base, prev, next, k)
    requires forall i :: 0 <= i < |ops| ==> ops[i] in UpdateOps(prev, next)
    ensures Between(base, prev, next, Run(k, ops))
    decreases |ops|
  {
    hide Between, UpdateOps, ValidOptions, Free;
    if ops != [] {
      UpdateExpected(prev, next, ops[0]);
      ExpectedStaysBetween(base, prev, next, k, ops[0]);
      StoppedStaysBetween(base, prev, next, Do(k, ops[0]), ops[1..]);
    }
  }

  /** A complete Update from anywhere between converges to the next options. */
  lemma UpdateConverges(base: Kernel, prev: Options, next: Options, k: Kernel)
    requires ValidOptions(prev) && ValidOptions(next) && Free(base, prev) && Free(base, next)
             && Between(base, prev, next, k)
    ensures Converged(base, next, Run(k, UpdateOps(prev, next)))
  {
    hide Run, UpdateOps, PutAll, RuleSpecs, StaleRoutes, StaleRules, MissingPrefixes, MissingRoutes, BetweenRoutes;
    hide OwnKeys;
    AfterUpdate(k, prev, next);
    AddrsConverge(base, prev, next, k.addrs);
    RulesConverge(base, prev, next, k.rules);
    RoutesConverge(base, prev, next, k);
  }

  lemma AddrsConverge(base: Kernel, prev: Options, next: Options, addrs: set<Prefix>)
    requires Free(base, prev) && BetweenAddrs(base, prev, next, addrs)
    ensures addrs - SetOf(MissingPrefixes(next.addresses, prev.addresses))
            + SetOf(MissingPrefixes(prev.addresses, next.addresses)) == base.addrs + SetOf(next.addresses)
  {
    hide MissingPrefixes, OwnKeys, RuleSpecs;
    forall p
      ensures p in addrs - SetOf(MissingPrefixes(next.addresses, prev.addresses))
                   + SetOf(MissingPrefixes(prev.addresses, next.addresses))
              <==> p in base.addrs + SetOf(next.addresses)
    {
      MissingPrefixesAre(next.addresses, prev.addresses, p);
      MissingPrefixesAre(prev.addresses, next.addresses, p);
      assert p in SetOf(prev.addresses) <==> p in prev.addresses;
    }
  }

  lemma RulesConverge(base: Kernel, prev: Options, next: Options, rules: set<RuleSpec>)
    requires Free(base, prev) && BetweenRules(base, prev, next, rules)
    ensures rules - RuleSet(StaleRules(RuleSpecs(prev.shared), RuleSpecs(next.shared)))
            + RuleSet(RuleSpecs(next.shared)) == base.rules + RuleSet(RuleSpecs(next.shared))
  {
    hide StaleRules, RuleSpecs, OwnKeys, Rule;
    var old', new' := RuleSpecs(prev.shared), RuleSpecs(next.shared);
    forall r | r in StaleRules(old', new') ensures Rule(r) in RuleSet(old') { StaleRulesAre(old', new', r); }
    forall x | x in rules && x !in base.rules && x !in RuleSet(new') ensures x in RuleSet(StaleRules(old', new')) {
      var r :| r in old' && Rule(r) == x;
      StaleRulesAre(old', new', r);
    }
  }

  lemma RoutesConverge(base: Kernel, prev: Options, next: Options, k: Kernel)
    requires ValidOptions(prev) && ValidOptions(next) && Free(base, prev) && Free(base, next)
             && BetweenRoutes(base, prev, next, k.routes)
    ensures WithShared(PutAll(Removed(k, prev, next).routes, RoutesOf(Added(prev, next))), next.shared)
            == WithShared(PutAll(base.routes, RoutesOf(next)), next.shared)
  {
    hide PutAll, Removed, Added, WithShared, Free, ValidOptions, BetweenRoutes, RoutesOf;
    var got, want := WithShared(PutAll(Removed(k, prev, next).routes, RoutesOf(Added(prev, next))), next.shared),
      WithShared(PutAll(base.routes, RoutesOf(next)), next.shared);
    forall key ensures SameAt(want, got, key) { RouteConverges(base, prev, next, k, key); }
    assert got.Keys == want.Keys by {
      forall key ensures key in got.Keys <==> key in want.Keys { assert SameAt(want, got, key); }
    }
    forall key | key in got ensures got[key] == want[key] { assert SameAt(want, got, key); }
  }

  lemma RouteConverges(base: Kernel, prev: Options, next: Options, k: Kernel, key: RouteKey)
    requires ValidOptions(prev) && ValidOptions(next) && Free(base, prev) && Free(base, next)
             && BetweenRoutes(base, prev, next, k.routes)
    ensures SameAt(WithShared(PutAll(base.routes, RoutesOf(next)), next.shared),
                   WithShared(PutAll(Removed(k, prev, next).routes, RoutesOf(Added(prev, next))), next.shared), key)
  {
    hide PutAll, StaleRoutes, MissingRoutes, RuleSpecs, StaleRules, MissingPrefixes;
    var m := Removed(k, prev, next).routes;
    AddedValid(prev, next);
    AppliedRoutes(base.routes, next, key);
    AppliedRoutes(m, Added(prev, next), key);
    RemovedAt(k, prev, next, key);
    if r :| r in RoutesOf(next) && Key(r, 0) == key {
      MissingIsExpected(prev, next, r);
      assert Key(r, 0) in KeySet(RoutesOf(next));
      if r in RoutesOf(prev) { AddedKeys(prev, next, r); }
    } else {
      AddedKeysOnly(prev, next, key);
    }
  }

  lemma AddedValid(prev: Options, next: Options)
    requires ValidOptions(prev) && ValidOptions(next)
    ensures ValidOptions(Added(prev, next))
  {
    MissingStaysUnique(prev.routes4, next.routes4);
    MissingStaysUnique(prev.routes6, next.routes6);
    forall i | 0 <= i < |Added(prev, next).routes4| ensures Added(prev, next).routes4[i].prefix.P4? {
      MissingRoutesAre(prev.routes4, next.routes4, Added(prev, next).routes4[i]);
    }
    forall i | 0 <= i < |Added(prev, next).routes6| ensures Added(prev, next).routes6[i].prefix.P6? {
      MissingRoutesAre(prev.routes6, next.routes6, Added(prev, next).routes6[i]);
    }
  }

  lemma {:induction false} MissingStaysUnique(have: seq<Route>, want: seq<Route>)
    requires UniqueKeys(want)
    ensures UniqueKeys(MissingRoutes(have, want))
    decreases |want|
  {
    if want != [] {
      MissingStaysUnique(have, want[1..]);
      var rest := MissingRoutes(have, want[1..]);
      forall i | 0 <= i < |rest| ensures Key(rest[i], 0) != Key(want[0], 0) {
        MissingRoutesAre(have, want[1..], rest[i]);
        var j :| 0 <= j < |want[1..]| && want[1..][j] == rest[i];
        assert want[j + 1] == rest[i];
      }
    }
  }

  /** The removals, key by key. */
  lemma RemovedAt(k: Kernel, prev: Options, next: Options, key: RouteKey)
    requires ValidOptions(prev) && ValidOptions(next)
    ensures key !in OwnKeys(prev) || key in KeySet(RoutesOf(next)) ==>
              SameAt(k.routes, Removed(k, prev, next).routes, key)
    ensures key in OwnKeys(prev) && key !in OwnKeys(next) ==> key !in Removed(k, prev, next).routes
  {
    hide StaleRoutes, RuleSpecs, StaleRules, MissingPrefixes, KeySet;
    StaleKeys(prev, next, key);
    MainKeys(RoutesOf(next), key);
    MainKeys(RoutesOf(prev), key);
  }

  lemma MainKeys(rs: seq<Route>, key: RouteKey)
    ensures key in KeySet(rs) ==> key.table == 0
  {
  }

  lemma StaleKeys(prev: Options, next: Options, key: RouteKey)
    requires ValidOptions(prev) && ValidOptions(next)
    ensures key in KeySet(StaleRoutes(prev.routes4, next.routes4) + StaleRoutes(prev.routes6, next.routes6))
            <==> key in KeySet(RoutesOf(prev)) && key !in KeySet(RoutesOf(next))
  {
    hide StaleRoutes, ValidOptions, RoutesOf;
    var rs := StaleRoutes(prev.routes4, next.routes4) + StaleRoutes(prev.routes6, next.routes6);
    if key in KeySet(rs) {
      var r :| r in rs && Key(r, 0) == key;
      StaleIsExpected(prev, next, r);
    }
    if key in KeySet(RoutesOf(prev)) && key !in KeySet(RoutesOf(next)) {
      var r :| r in RoutesOf(prev) && Key(r, 0) == key;
      StaleIsExpected(prev, next, r);
    }
  }

  lemma AddedKeys(prev: Options, next: Options, r: Route)
    requires ValidOptions(prev) && ValidOptions(next) && r in RoutesOf(next) && r in RoutesOf(prev)
    ensures Key(r, 0) !in OwnKeys(Added(prev, next))
  {
    AllUnique(next);
    forall q | q in RoutesOf(Added(prev, next)) ensures Key(q, 0) != Key(r, 0) {
      MissingIsExpected(prev, next, q);
      if Key(q, 0) == Key(r, 0) { SameRoute(RoutesOf(next), q, r); }
    }
  }

  lemma AddedKeysOnly(prev: Options, next: Options, key: RouteKey)
    requires ValidOptions(prev) && ValidOptions(next) && forall r :: r in RoutesOf(next) ==> Key(r, 0) != key
    ensures key in OwnKeys(Added(prev, next)) <==> key in OwnKeys(next)
  {
    forall q | q in RoutesOf(Added(prev, next)) ensures Key(q, 0) != key { MissingIsExpected(prev, next, q); }
  }

  // ----- Histories -----

  const NOTHING: Options := Options([], [], [], false, false, None)

  /** A first Apply is an Update from nothing. */
  lemma ApplyIsUpdate(o: Options)
    ensures UpdateOps(NOTHING, o) == ApplyOps(o)
  {
    NoPrefixMissing(o.addresses);
    NoRouteMissing(o.routes4);
    NoRouteMissing(o.routes6);
    NothingLeft(o.addresses);
    assert Added(NOTHING, o) == o;
    assert RemoveOps(NOTHING, o) == [];
  }

  lemma {:induction false} NoPrefixMissing(ps: seq<Prefix>)
    ensures MissingPrefixes([], ps) == ps
  {
    if ps != [] {
      NoPrefixMissing(ps[1..]);
      assert ps == [ps[0]] + ps[1..];
    }
  }

  lemma {:induction false} NoRouteMissing(rs: seq<Route>)
    ensures MissingRoutes([], rs) == rs
  {
    if rs != [] {
      NoRouteMissing(rs[1..]);
      assert rs == [rs[0]] + rs[1..];
    }
  }

  lemma NothingLeft(ps: seq<Prefix>)
    ensures MissingPrefixes(ps, []) == []
  {
  }

  /** One change of configuration: runs that stopped after some operations, then one that went through. */
  datatype Change = Change(next: Options, stops: seq<nat>)

  function Stopped(k: Kernel, ops: seq<Op>, stops: seq<nat>): Kernel
    decreases |stops|
  {
    if stops == [] then k else Stopped(Run(k, if stops[0] <= |ops| then ops[..stops[0]] else ops), ops, stops[1..])
  }

  function AfterChange(k: Kernel, prev: Options, c: Change): Kernel {
    Run(Stopped(k, UpdateOps(prev, c.next), c.stops), UpdateOps(prev, c.next))
  }

  function AfterHistory(k: Kernel, prev: Options, cs: seq<Change>): Kernel
    decreases |cs|
  {
    if cs == [] then k else AfterHistory(AfterChange(k, prev, cs[0]), cs[0].next, cs[1..])
  }

  lemma {:induction false} StopsStayBetween(base: Kernel, prev: Options, next: Options, k: Kernel, stops: seq<nat>)
    requires ValidOptions(prev) && ValidOptions(next) && Free(base, prev) && Free(base, next)
             && Between(base, prev, next, k)
    ensures Between(base, prev, next, Stopped(k, UpdateOps(prev, next), stops))
    decreases |stops|
  {
    hide Between, UpdateOps, ValidOptions, Free, Run;
    if stops != [] {
      var ops := UpdateOps(prev, next);
      var part := if stops[0] <= |ops| then ops[..stops[0]] else ops;
      StoppedStaysBetween(base, prev, next, k, part);
      StopsStayBetween(base, prev, next, Run(k, part), stops[1..]);
    }
  }

  /**
   * Reconciliation converges: after any history of changes, each run as often as it takes, the kernel is as after one
   * Apply of the last options.
   */
  lemma {:induction false} HistoryConverges(base: Kernel, prev: Options, k: Kernel, cs: seq<Change>)
    requires ValidOptions(prev) && Free(base, prev) && Converged(base, prev, k)
    requires forall i :: 0 <= i < |cs| ==> ValidOptions(cs[i].next) && Free(base, cs[i].next)
    ensures Converged(base, if cs == [] then prev else cs[|cs| - 1].next, AfterHistory(k, prev, cs))
    decreases |cs|
  {
    hide ValidOptions, Free, Converged, UpdateOps, Run;
    if cs != [] {
      var next := cs[0].next;
      ConvergedIsBetween(base, prev, next, k);
      StopsStayBetween(base, prev, next, k, cs[0].stops);
      UpdateConverges(base, prev, next, Stopped(k, UpdateOps(prev, next), cs[0].stops));
      HistoryConverges(base, next, AfterChange(k, prev, cs[0]), cs[1..]);
    }
  }

  /**
   * The same from the beginning, where the first change is an Apply to a kernel free of everything that is ever
   * configured.
   */
  lemma FreshHistoryConverges(base: Kernel, cs: seq<Change>)
    requires |cs| > 0 && forall i :: 0 <= i < |cs| ==> ValidOptions(cs[i].next) && Free(base, cs[i].next)
    ensures Converged(base, cs[|cs| - 1].next, AfterHistory(base, NOTHING, cs))
    ensures UpdateOps(NOTHING, cs[0].next) == ApplyOps(cs[0].next)
  {
    hide UpdateOps, ApplyOps, ValidOptions, Free, Converged, Between, Run;
    var first := cs[0].next;
    ApplyIsUpdate(first);
    NothingBetween(base, first);
    StopsStayBetween(base, NOTHING, first, base, cs[0].stops);
    UpdateConverges(base, NOTHING, first, Stopped(base, UpdateOps(NOTHING, first), cs[0].stops));
    HistoryConverges(base, first, AfterChange(base, NOTHING, cs[0]), cs[1..]);
  }

  lemma NothingBetween(base: Kernel, next: Options)
    ensures ValidOptions(NOTHING) && Free(base, NOTHING) && Between(base, NOTHING, next, base)
  {
    assert NOTHING.routes4 + NOTHING.routes6 == [];
  }
}
