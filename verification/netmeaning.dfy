/** What the kernel holds after reconciliation, told by the options alone. */
module NetMeaning {
  import opened NetUtil
  import opened Prefixes
  import opened NetSpec
  import opened NetLaws

  /** The filter as the kernel has it: without a first port there is no port range. */
  ghost predicate FilterAs(f: Filter, g: Filter) {
    g == if f.start == 0 then Filter(f.proto, 0, 0) else f
  }

  /** A rule for the shared address: one for each filter, or one that matches everything. */
  ghost predicate RuleFor(s: Shared, r: RuleSpec) {
    && r.addr == s.addr && r.from == s.from && r.table == s.table
    && if s.filters == [] then r.filter == Filter(0, 0, 0)
       else exists i :: 0 <= i < |s.filters| && FilterAs(s.filters[i], r.filter)
  }

  /** The key of the route to the shared address. */
  function SharedKey(s: Shared): RouteKey { RouteKey(P6(Prefix6(s.addr, 128)), 0, s.table) }

  /** A route of the options, in the main table. */
  ghost predicate RouteAsked(o: Options, r: Route) {
    r in o.routes4 || r in o.routes6
  }

  ghost predicate KeyAsked(o: Options, key: RouteKey) {
    || (exists r :: RouteAsked(o, r) && key == RouteKey(r.prefix, r.metric, 0))
    || (o.shared.Some? && key == SharedKey(o.shared.value))
  }

  /** k is base with exactly what o asks for. */
  ghost predicate Configured(base: Kernel, o: Options, k: Kernel) {
    && k.up
    && (forall p :: p in k.addrs <==> p in base.addrs || p in o.addresses)
    && (forall r :: r in k.rules <==> r in base.rules || (o.shared.Some? && RuleFor(o.shared.value, r)))
    && (forall r :: RouteAsked(o, r) ==>
          RouteKey(r.prefix, r.metric, 0) in k.routes && k.routes[RouteKey(r.prefix, r.metric, 0)] == (r.mtu, r.advmss))
    && (o.shared.Some? ==> SharedKey(o.shared.value) in k.routes && k.routes[SharedKey(o.shared.value)] == (0, 0))
    && (forall key :: !KeyAsked(o, key) ==> SameAt(base.routes, k.routes, key))
    && (o.forward4 ==> k.forward4) && (o.forward6 ==> k.forward6)
    && (o.shared.Some? ==> 2 in k.local && 0 !in k.local)
  }

  lemma RulesMean(s: Shared, r: RuleSpec)
    ensures r in RuleSet(RuleSpecs(Some(s))) <==> RuleFor(s, r)
  {
    var rs := RuleSpecs(Some(s));
    if r in RuleSet(rs) {
      var u :| u in rs && r == Rule(u);
      if s.filters != [] {
        var i :| 0 <= i < |rs| && rs[i] == u;
        assert FilterAs(s.filters[i], r.filter);
      }
    }
    if RuleFor(s, r) {
      if s.filters == [] {
        assert rs[0] == r && r == Rule(r);
      } else {
        var i :| 0 <= i < |s.filters| && FilterAs(s.filters[i], r.filter);
        assert rs[i] in rs && r == Rule(rs[i]);
      }
    }
  }

  lemma KeysMean(o: Options, key: RouteKey)
    ensures key in OwnKeys(o) <==> KeyAsked(o, key)
  {
    hide RuleSpecs;
    if KeyAsked(o, key) && !(o.shared.Some? && key == SharedKey(o.shared.value)) {
      var r :| RouteAsked(o, r) && key == RouteKey(r.prefix, r.metric, 0);
      assert r in RoutesOf(o) && key == Key(r, 0);
    }
    if key in KeySet(RoutesOf(o)) {
      var r :| r in RoutesOf(o) && key == Key(r, 0);
      assert RouteAsked(o, r);
    }
  }

  /** Convergence means being configured. */
  lemma ConvergedMeans(base: Kernel, o: Options, k: Kernel)
    requires ValidOptions(o) && Converged(base, o, k)
    ensures Configured(base, o, k)
  {
    hide RuleSpecs, PutAll, OwnKeys, RuleFor, KeyAsked;
    forall r ensures r in k.rules <==> r in base.rules || (o.shared.Some? && RuleFor(o.shared.value, r)) {
      if o.shared.Some? { RulesMean(o.shared.value, r); } else { NoSpecs(); }
    }
    forall r | RouteAsked(o, r)
      ensures RouteKey(r.prefix, r.metric, 0) in k.routes
      ensures k.routes[RouteKey(r.prefix, r.metric, 0)] == (r.mtu, r.advmss)
    {
      assert r in RoutesOf(o);
      AppliedRoutes(base.routes, o, Key(r, 0));
    }
    if o.shared.Some? { AppliedRoutes(base.routes, o, SharedKey(o.shared.value)); }
    forall key | !KeyAsked(o, key) ensures SameAt(base.routes, k.routes, key) {
      KeysMean(o, key);
      AppliedRoutes(base.routes, o, key);
    }
  }

  /** A complete Apply, on any kernel. */
  lemma ApplyMeans(base: Kernel, o: Options)
    requires ValidOptions(o)
    ensures var k := Run(base, ApplyOps(o));
            && Configured(base, o, k)
            && k.forward4 == (base.forward4 || o.forward4) && k.forward6 == (base.forward6 || o.forward6)
            && k.local == if o.shared.Some? then base.local + {2} - {0} else base.local
  {
    hide Run, ApplyOps, RuleSpecs, PutAll, Configured;
    ApplyConverges(base, o);
    ConvergedMeans(base, o, Run(base, ApplyOps(o)));
    AfterApply(base, o);
  }

  /** The kernel has nothing that o asks for. */
  ghost predicate Unused(base: Kernel, o: Options) {
    && (forall p :: p in o.addresses ==> p !in base.addrs)
    && (forall key :: KeyAsked(o, key) ==> key !in base.routes)
    && (forall r :: o.shared.Some? && RuleFor(o.shared.value, r) ==> r !in base.rules)
  }

  lemma UnusedIsFree(base: Kernel, o: Options)
    ensures Unused(base, o) <==> Free(base, o)
  {
    hide RuleSpecs, RuleFor, KeyAsked, OwnKeys;
    forall key ensures key in OwnKeys(o) <==> KeyAsked(o, key) { KeysMean(o, key); }
    forall r ensures r in RuleSet(RuleSpecs(o.shared)) <==> o.shared.Some? && RuleFor(o.shared.value, r) {
      if o.shared.Some? { RulesMean(o.shared.value, r); } else { NoSpecs(); }
    }
    forall p ensures p in SetOf(o.addresses) <==> p in o.addresses {}
  }

  /** A complete Update, from anywhere on the way. */
  lemma UpdateMeans(base: Kernel, prev: Options, next: Options, k: Kernel)
    requires ValidOptions(prev) && ValidOptions(next) && Unused(base, prev) && Unused(base, next)
             && Between(base, prev, next, k)
    ensures Configured(base, next, Run(k, UpdateOps(prev, next)))
  {
    hide Run, UpdateOps, Configured, Between, Converged, Free, Unused, ValidOptions;
    UnusedIsFree(base, prev);
    UnusedIsFree(base, next);
    UpdateConverges(base, prev, next, k);
    ConvergedMeans(base, next, Run(k, UpdateOps(prev, next)));
  }

  /** After any history of changes, each run as often as it takes, the kernel holds what the last options ask for. */
  lemma HistoryMeans(base: Kernel, cs: seq<Change>)
    requires |cs| > 0 && forall i :: 0 <= i < |cs| ==> ValidOptions(cs[i].next) && Unused(base, cs[i].next)
    ensures Configured(base, cs[|cs| - 1].next, AfterHistory(base, NOTHING, cs))
  {
    hide Configured, Converged, Free, Unused, ValidOptions, AfterHistory;
    forall i | 0 <= i < |cs| ensures Free(base, cs[i].next) { UnusedIsFree(base, cs[i].next); }
    FreshHistoryConverges(base, cs);
    ConvergedMeans(base, cs[|cs| - 1].next, AfterHistory(base, NOTHING, cs));
  }

  /** What the policy routing for a shared address consists of. */
  ghost predicate Installed(k: Kernel, s: Shared, k': Kernel) {
    && (forall r :: r in k'.rules <==> r in k.rules || RuleFor(s, r))
    && k'.routes == k.routes[SharedKey(s) := (0, 0)]
    && k'.local == k.local + {2} - {0}
    && k'.addrs == k.addrs && k'.up == k.up && k'.forward4 == k.forward4 && k'.forward6 == k.forward6
  }

  lemma SharedMeans(k: Kernel, s: Shared)
    ensures Installed(k, s, Run(k, SharedOps(s)))
  {
    hide Run, SharedOps, RuleSpecs, RuleFor;
    AfterShared(k, s);
    forall r ensures r in RuleSet(RuleSpecs(Some(s))) <==> RuleFor(s, r) { RulesMean(s, r); }
  }
}
