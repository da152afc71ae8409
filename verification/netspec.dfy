/** Interface configuration as operations on an abstract kernel. */
module NetSpec {
  import opened Bytes
  import opened NetUtil
  import opened Prefixes

  datatype Prefix = P4(p4: Prefix4) | P6(p6: Prefix6)

  /** A route via the interface. */
  datatype Route = Route(prefix: Prefix, metric: nat, mtu: nat, advmss: nat)

  /** What makes a route distinct to the kernel; table 0 is the main table. */
  datatype RouteKey = RouteKey(prefix: Prefix, metric: nat, table: nat)

  datatype Filter = Filter(proto: nat, start: U16, end: U16)
  datatype RuleSpec = RuleSpec(addr: Addr6, from: Prefix, table: nat, filter: Filter)
  datatype Shared = Shared(addr: Addr6, from: Prefix, table: nat, filters: seq<Filter>)

  datatype Options = Options(addresses: seq<Prefix>, routes4: seq<Route>, routes6: seq<Route>, forward4: bool,
                             forward6: bool, shared: Option<Shared>)

  /** The part of the kernel that clatto configures. local holds the priorities of the rules for the local table. */
  datatype Kernel = Kernel(up: bool, addrs: set<Prefix>, routes: map<RouteKey, (nat, nat)>, rules: set<RuleSpec>,
                           local: set<nat>, forward4: bool, forward6: bool)

  const LOCAL_RULE_PRIORITY := 2

  function Key(r: Route, table: nat): RouteKey { RouteKey(r.prefix, r.metric, table) }

  /** The route to the shared address. */
  function SharedRoute(s: Shared): Route { Route(P6(Prefix6(s.addr, 128)), 0, 0, 0) }

  /** The rule as the kernel sees it: without a first port there is no port range. */
  function Rule(r: RuleSpec): RuleSpec {
    if r.filter.start == 0 then r.(filter := r.filter.(end := 0)) else r
  }

  /** ruleSpecs: one rule per filter, or one that matches everything. */
  function RuleSpecs(s: Option<Shared>): seq<RuleSpec> {
    match s
    case None => []
    case Some(sh) =>
      if |sh.filters| == 0 then [RuleSpec(sh.addr, sh.from, sh.table, Filter(0, 0, 0))]
      else seq(|sh.filters|, i requires 0 <= i < |sh.filters| => RuleSpec(sh.addr, sh.from, sh.table, sh.filters[i]))
  }

  // ----- Kernel operations -----

  datatype Op =
    | LinkUp
    | AddAddr(p: Prefix) | DelAddr(p: Prefix)
    | PutRoute(r: Route, table: nat) | DelRoute(r: Route, table: nat)
    | AddRule(rule: RuleSpec) | DelRule(rule: RuleSpec)
    | AddLocal(priority: nat) | DelLocal(priority: nat)
    | SetForward4 | SetForward6

  /** What one call does when it succeeds; adding what is there and removing what is gone are no errors. */
  function Do(k: Kernel, op: Op): Kernel {
    match op
    case LinkUp => k.(up := true)
    case AddAddr(p) => k.(addrs := k.addrs + {p})
    case DelAddr(p) => k.(addrs := k.addrs - {p})
    case PutRoute(r, table) => k.(routes := k.routes[Key(r, table) := (r.mtu, r.advmss)])
    case DelRoute(r, table) => k.(routes := k.routes - {Key(r, table)})
    case AddRule(rule) => k.(rules := k.rules + {Rule(rule)})
    case DelRule(rule) => k.(rules := k.rules - {Rule(rule)})
    case AddLocal(priority) => k.(local := k.local + {priority})
    case DelLocal(priority) => k.(local := k.local - {priority})
    case SetForward4 => k.(forward4 := true)
    case SetForward6 => k.(forward6 := true)
  }

  function Run(k: Kernel, ops: seq<Op>): Kernel
    decreases |ops|
  {
    if ops == [] then k else Run(Do(k, ops[0]), ops[1..])
  }

  lemma {:induction false} RunConcat(k: Kernel, a: seq<Op>, b: seq<Op>)
    ensures Run(k, a + b) == Run(Run(k, a), b)
    decreases |a|
  {
    if a == [] {
      assert a + b == b;
    } else {
      assert (a + b)[1..] == a[1..] + b;
      RunConcat(Do(k, a[0]), a[1..], b);
    }
  }

  // ----- What the diff helpers compute -----

  function MissingPrefixes(have: seq<Prefix>, want: seq<Prefix>): seq<Prefix> {
    if want == [] then [] else (if want[0] in have then [] else [want[0]]) + MissingPrefixes(have, want[1..])
  }

  function MissingRoutes(have: seq<Route>, want: seq<Route>): seq<Route> {
    if want == [] then [] else (if want[0] in have then [] else [want[0]]) + MissingRoutes(have, want[1..])
  }

  predicate HasKey(rs: seq<Route>, r: Route) {
    exists i :: 0 <= i < |rs| && Key(rs[i], 0) == Key(r, 0)
  }

  function StaleRoutes(have: seq<Route>, want: seq<Route>): seq<Route> {
    if have == [] then [] else (if HasKey(want, have[0]) then [] else [have[0]]) + StaleRoutes(have[1..], want)
  }

  function StaleRules(have: seq<RuleSpec>, want: seq<RuleSpec>): seq<RuleSpec> {
    if have == [] then [] else (if have[0] in want then [] else [have[0]]) + StaleRules(have[1..], want)
  }

  lemma {:induction false} MissingPrefixesAre(have: seq<Prefix>, want: seq<Prefix>, p: Prefix)
    ensures p in MissingPrefixes(have, want) <==> p in want && p !in have
  {
    if want != [] { MissingPrefixesAre(have, want[1..], p); }
  }

  lemma {:induction false} MissingRoutesAre(have: seq<Route>, want: seq<Route>, r: Route)
    ensures r in MissingRoutes(have, want) <==> r in want && r !in have
  {
    if want != [] { MissingRoutesAre(have, want[1..], r); }
  }

  lemma {:induction false} StaleRoutesAre(have: seq<Route>, want: seq<Route>, r: Route)
    ensures r in StaleRoutes(have, want) <==> r in have && !HasKey(want, r)
  {
    if have != [] { StaleRoutesAre(have[1..], want, r); }
  }

  lemma {:induction false} StaleRulesAre(have: seq<RuleSpec>, want: seq<RuleSpec>, r: RuleSpec)
    ensures r in StaleRules(have, want) <==> r in have && r !in want
  {
    if have != [] { StaleRulesAre(have[1..], want, r); }
  }

  // ----- Apply and Update as sequences of operations -----

  function AddAddrs(ps: seq<Prefix>): seq<Op> { if ps == [] then [] else [AddAddr(ps[0])] + AddAddrs(ps[1..]) }
  function DelAddrs(ps: seq<Prefix>): seq<Op> { if ps == [] then [] else [DelAddr(ps[0])] + DelAddrs(ps[1..]) }
  function PutRoutes(rs: seq<Route>): seq<Op> { if rs == [] then [] else [PutRoute(rs[0], 0)] + PutRoutes(rs[1..]) }
  function DelRoutes(rs: seq<Route>): seq<Op> { if rs == [] then [] else [DelRoute(rs[0], 0)] + DelRoutes(rs[1..]) }
  function AddRules(rs: seq<RuleSpec>): seq<Op> { if rs == [] then [] else [AddRule(rs[0])] + AddRules(rs[1..]) }
  function DelRules(rs: seq<RuleSpec>): seq<Op> { if rs == [] then [] else [DelRule(rs[0])] + DelRules(rs[1..]) }

  /** applyShared: the local table is consulted after the shared rules from now on. */
  function SharedOps(s: Shared): seq<Op> {
    [AddLocal(LOCAL_RULE_PRIORITY), DelLocal(0), PutRoute(SharedRoute(s), s.table)] + AddRules(RuleSpecs(Some(s)))
  }

  function ForwardOps(o: Options): seq<Op> {
    (if o.forward4 then [SetForward4] else []) + (if o.forward6 then [SetForward6] else [])
  }

  function ApplyOps(o: Options): seq<Op> {
    [LinkUp] + AddAddrs(o.addresses) + PutRoutes(o.routes4 + o.routes6)
    + (if o.shared.Some? then SharedOps(o.shared.value) else [])
    + ForwardOps(o)
  }

  /** The route of the previous shared address goes if the address or its table changed. */
  predicate SharedStale(prev: Option<Shared>, next: Option<Shared>) {
    prev.Some? && (next.None? || prev.value.addr != next.value.addr || prev.value.table != next.value.table)
  }

  function RemoveOps(prev: Options, next: Options): seq<Op> {
    DelRoutes(StaleRoutes(prev.routes4, next.routes4) + StaleRoutes(prev.routes6, next.routes6))
    + DelAddrs(MissingPrefixes(next.addresses, prev.addresses))
    + DelRules(StaleRules(RuleSpecs(prev.shared), RuleSpecs(next.shared)))
    + (if SharedStale(prev.shared, next.shared) then [DelRoute(SharedRoute(prev.shared.value), prev.shared.value.table)]
      else [])
  }

  function Added(prev: Options, next: Options): Options {
    Options(MissingPrefixes(prev.addresses, next.addresses), MissingRoutes(prev.routes4, next.routes4),
      MissingRoutes(prev.routes6, next.routes6),
            next.forward4 && !prev.forward4, next.forward6 && !prev.forward6, next.shared)
  }

  function UpdateOps(prev: Options, next: Options): seq<Op> {
    RemoveOps(prev, next) + ApplyOps(Added(prev, next))
  }
}
