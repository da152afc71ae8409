/** Configuration of the interface, call by call. */
module NetConf {
  import opened NetUtil
  import opened NetSpec
  import opened NetLaws
  import opened NetMeaning

  /** The kernel behind netlink: the n-th call fails if fails(n) says so, and then changes nothing. */
  class Netlink {
    var state: Kernel
    var calls: nat
    const fails: nat -> bool

    constructor (state: Kernel, fails: nat -> bool)
      ensures this.state == state && this.fails == fails && calls == 0
    {
      this.state, this.fails, calls := state, fails, 0;
    }

    method Call(op: Op) returns (ok: bool)
      modifies this
      ensures state == if ok then Do(old(state), op) else old(state)
    {
      ok := !fails(calls);
      calls := calls + 1;
      if ok {
        state := Do(state, op);
      }
    }

    /** A call that only reads. */
    method Ask() returns (ok: bool)
      modifies this
      ensures state == old(state)
    {
      ok := !fails(calls);
      calls := calls + 1;
    }
  }

  /** The first n of the operations have been carried out, all of them if the caller was told so. */
  ghost predicate Progress(k: Kernel, ops: seq<Op>, n: nat, ok: bool, k': Kernel) {
    n <= |ops| && (ok ==> n == |ops|) && k' == Run(k, ops[..n])
  }

  lemma ProgressDone(k: Kernel, ops: seq<Op>, k': Kernel)
    requires k' == Run(k, ops)
    ensures Progress(k, ops, |ops|, true, k')
  {
    assert ops[..|ops|] == ops;
  }

  lemma ProgressNone(k: Kernel, ops: seq<Op>)
    ensures Progress(k, ops, 0, false, k)
  {
  }

  /** Progress in the second of two blocks. */
  lemma ProgressThen(k: Kernel, a: seq<Op>, b: seq<Op>, n: nat, ok: bool, k': Kernel)
    requires Progress(Run(k, a), b, n, ok, k')
    ensures Progress(k, a + b, |a| + n, ok, k')
  {
    assert (a + b)[..|a| + n] == a + b[..n];
    RunConcat(k, a, b[..n]);
  }

  /** Progress in the first of two blocks, where it ended. */
  lemma ProgressFirst(k: Kernel, a: seq<Op>, b: seq<Op>, n: nat, k': Kernel)
    requires Progress(k, a, n, false, k')
    ensures Progress(k, a + b, n, false, k')
  {
    assert (a + b)[..n] == a[..n];
  }

  /** One more operation. */
  lemma RunNext(k: Kernel, ops: seq<Op>, n: nat)
    requires n < |ops|
    ensures Run(k, ops[..n + 1]) == Do(Run(k, ops[..n]), ops[n])
  {
    assert ops[..n + 1] == ops[..n] + [ops[n]];
    RunConcat(k, ops[..n], [ops[n]]);
    assert [ops[n]][1..] == [];
  }

  // ----- The diff helpers -----

  lemma MissingPrefixesUnfold(have: seq<Prefix>, want: seq<Prefix>)
    ensures MissingPrefixes(have, want) ==
              if want == [] then []
              else (if want[0] in have then [] else [want[0]]) + MissingPrefixes(have, want[1..])
  {
  }

  /** missingPrefixes: what is wanted and not there, in order. */
  method FindMissingPrefixes(have: seq<Prefix>, want: seq<Prefix>) returns (out: seq<Prefix>)
    ensures out == MissingPrefixes(have, want)
  {
    hide MissingPrefixes;
    var known := set p | p in have;
    out := [];
    for i := 0 to |want|
      invariant out + MissingPrefixes(have, want[i..]) == MissingPrefixes(have, want)
    {
      MissingPrefixesUnfold(have, want[i..]);
      assert want[i..][1..] == want[i + 1..];
      if want[i] !in known {
        out := out + [want[i]];
      }
    }
    assert want[|want|..] == [];
    MissingPrefixesUnfold(have, []);
  }

  lemma MissingRoutesUnfold(have: seq<Route>, want: seq<Route>)
    ensures MissingRoutes(have, want) ==
              if want == [] then []
              else (if want[0] in have then [] else [want[0]]) + MissingRoutes(have, want[1..])
  {
  }

  /** missingRoutes. */
  method FindMissingRoutes(have: seq<Route>, want: seq<Route>) returns (out: seq<Route>)
    ensures out == MissingRoutes(have, want)
  {
    hide MissingRoutes;
    var known := set r | r in have;
    out := [];
    for i := 0 to |want|
      invariant out + MissingRoutes(have, want[i..]) == MissingRoutes(have, want)
    {
      MissingRoutesUnfold(have, want[i..]);
      assert want[i..][1..] == want[i + 1..];
      if want[i] !in known {
        out := out + [want[i]];
      }
    }
    assert want[|want|..] == [];
    MissingRoutesUnfold(have, []);
  }

  lemma StaleRoutesUnfold(have: seq<Route>, want: seq<Route>)
    ensures StaleRoutes(have, want) ==
              if have == [] then []
              else (if HasKey(want, have[0]) then [] else [have[0]]) + StaleRoutes(have[1..], want)
  {
  }

  /** staleRoutes: routes whose key is not wanted any more. */
  method FindStaleRoutes(have: seq<Route>, want: seq<Route>) returns (out: seq<Route>)
    ensures out == StaleRoutes(have, want)
  {
    hide StaleRoutes;
    var keys: set<RouteKey> := {};
    for i := 0 to |want|
      invariant forall key :: key in keys <==> exists j :: 0 <= j < i && Key(want[j], 0) == key
    {
      keys := keys + {Key(want[i], 0)};
    }
    out := [];
    for i := 0 to |have|
      invariant out + StaleRoutes(have[i..], want) == StaleRoutes(have, want)
    {
      StaleRoutesUnfold(have[i..], want);
      assert have[i..][1..] == have[i + 1..];
      if Key(have[i], 0) !in keys {
        out := out + [have[i]];
      }
    }
    assert have[|have|..] == [];
    StaleRoutesUnfold([], want);
  }

  // ----- The loops over netlink calls -----

  method AddAddresses(kernel: Netlink, ps: seq<Prefix>) returns (ok: bool, ghost n: nat)
    modifies kernel
    ensures Progress(old(kernel.state), AddAddrs(ps), n, ok, kernel.state)
  {
    ghost var k, ops := kernel.state, AddAddrs(ps);
    n := 0;
    for i := 0 to |ps|
      invariant n <= |ops| && ops[n..] == AddAddrs(ps[i..]) && kernel.state == Run(k, ops[..n])
    {
      assert ps[i..][1..] == ps[i + 1..] && ops[n] == ops[n..][0] && ops[n + 1..] == ops[n..][1..];
      ok := kernel.Call(AddAddr(ps[i]));
      if !ok {
        return;
      }
      RunNext(k, ops, n);
      n := n + 1;
    }
    assert |ops[n..]| == 0;
    ok := true;
  }

  method RemoveAddresses(kernel: Netlink, ps: seq<Prefix>) returns (ok: bool, ghost n: nat)
    modifies kernel
    ensures Progress(old(kernel.state), DelAddrs(ps), n, ok, kernel.state)
  {
    ghost var k, ops := kernel.state, DelAddrs(ps);
    n := 0;
    for i := 0 to |ps|
      invariant n <= |ops| && ops[n..] == DelAddrs(ps[i..]) && kernel.state == Run(k, ops[..n])
    {
      assert ps[i..][1..] == ps[i + 1..] && ops[n] == ops[n..][0] && ops[n + 1..] == ops[n..][1..];
      ok := kernel.Call(DelAddr(ps[i]));
      if !ok {
        return;
      }
      RunNext(k, ops, n);
      n := n + 1;
    }
    assert |ops[n..]| == 0;
    ok := true;
  }

  method AddAllRoutes(kernel: Netlink, rs: seq<Route>) returns (ok: bool, ghost n: nat)
    modifies kernel
    ensures Progress(old(kernel.state), PutRoutes(rs), n, ok, kernel.state)
  {
    ghost var k, ops := kernel.state, PutRoutes(rs);
    n := 0;
    for i := 0 to |rs|
      invariant n <= |ops| && ops[n..] == PutRoutes(rs[i..]) && kernel.state == Run(k, ops[..n])
    {
      assert rs[i..][1..] == rs[i + 1..] && ops[n] == ops[n..][0] && ops[n + 1..] == ops[n..][1..];
      ok := kernel.Call(PutRoute(rs[i], 0));
      if !ok {
        return;
      }
      RunNext(k, ops, n);
      n := n + 1;
    }
    assert |ops[n..]| == 0;
    ok := true;
  }

  method RemoveRoutes(kernel: Netlink, rs: seq<Route>) returns (ok: bool, ghost n: nat)
    modifies kernel
    ensures Progress(old(kernel.state), DelRoutes(rs), n, ok, kernel.state)
  {
    ghost var k, ops := kernel.state, DelRoutes(rs);
    n := 0;
    for i := 0 to |rs|
      invariant n <= |ops| && ops[n..] == DelRoutes(rs[i..]) && kernel.state == Run(k, ops[..n])
    {
      assert rs[i..][1..] == rs[i + 1..] && ops[n] == ops[n..][0] && ops[n + 1..] == ops[n..][1..];
      ok := kernel.Call(DelRoute(rs[i], 0));
      if !ok {
        return;
      }
      RunNext(k, ops, n);
      n := n + 1;
    }
    assert |ops[n..]| == 0;
    ok := true;
  }

  method AddAllRules(kernel: Netlink, us: seq<RuleSpec>) returns (ok: bool, ghost n: nat)
    modifies kernel
    ensures Progress(old(kernel.state), AddRules(us), n, ok, kernel.state)
  {
    ghost var k, ops := kernel.state, AddRules(us);
    n := 0;
    for i := 0 to |us|
      invariant n <= |ops| && ops[n..] == AddRules(us[i..]) && kernel.state == Run(k, ops[..n])
    {
      assert us[i..][1..] == us[i + 1..] && ops[n] == ops[n..][0] && ops[n + 1..] == ops[n..][1..];
      ok := kernel.Call(AddRule(us[i]));
      if !ok {
        return;
      }
      RunNext(k, ops, n);
      n := n + 1;
    }
    assert |ops[n..]| == 0;
    ok := true;
  }

  /** removeStaleRules. */
  method RemoveStaleRules(kernel: Netlink, prev: Option<Shared>, next: Option<Shared>) returns (ok: bool, ghost n: nat)
    modifies kernel
    ensures Progress(old(kernel.state), DelRules(StaleRules(RuleSpecs(prev), RuleSpecs(next))), n, ok, kernel.state)
  {
    hide RuleSpecs;
    var have, want := RuleSpecs(prev), RuleSpecs(next);
    var keep := set r | r in want;
    ghost var k, ops := kernel.state, DelRules(StaleRules(have, want));
    n := 0;
    for i := 0 to |have|
      invariant n <= |ops| && ops[n..] == DelRules(StaleRules(have[i..], want)) && kernel.state == Run(k, ops[..n])
    {
      StaleRulesNext(have, want, i);
      if have[i] !in keep {
        assert ops[n] == ops[n..][0] && ops[n + 1..] == ops[n..][1..];
        ok := kernel.Call(DelRule(have[i]));
        if !ok {
          return;
        }
        RunNext(k, ops, n);
        n := n + 1;
      }
    }
    assert |ops[n..]| == 0;
    ok := true;
  }

  lemma StaleRulesNext(have: seq<RuleSpec>, want: seq<RuleSpec>, i: nat)
    requires i < |have|
    ensures have[i] in want ==> StaleRules(have[i..], want) == StaleRules(have[i + 1..], want)
    ensures have[i] !in want ==>
              DelRules(StaleRules(have[i..], want)) == [DelRule(have[i])] + DelRules(StaleRules(have[i + 1..], want))
  {
    assert have[i..][1..] == have[i + 1..];
    if have[i] !in want { assert StaleRules(have[i..], want)[1..] == StaleRules(have[i + 1..], want); }
  }

  /** demoteLocalRule: what is already as it should be is left alone. */
  method DemoteLocalRule(kernel: Netlink) returns (ok: bool, ghost n: nat)
    modifies kernel
    ensures Progress(old(kernel.state), [AddLocal(LOCAL_RULE_PRIORITY), DelLocal(0)], n, ok, kernel.state)
  {
    ghost var k, ops := kernel.state, [AddLocal(LOCAL_RULE_PRIORITY), DelLocal(0)];
    n := 0;
    assert ops[..0] == [];
    ok := kernel.Ask();
    if !ok {
      return;
    }
    var atZero, demoted := 0 in kernel.state.local, LOCAL_RULE_PRIORITY in kernel.state.local;
    RunNext(k, ops, 0);
    RunNext(k, ops, 1);
    if !demoted {
      ok := kernel.Call(AddLocal(LOCAL_RULE_PRIORITY));
      if !ok {
        return;
      }
    } else {
      assert k.local + {LOCAL_RULE_PRIORITY} == k.local;
    }
    n := 1;
    if atZero {
      ok := kernel.Call(DelLocal(0));
      if !ok {
        return;
      }
    } else {
      assert kernel.state.local - {0} == kernel.state.local;
    }
    n := 2;
  }

  /** applyShared. */
  method ApplyShared(kernel: Netlink, s: Shared) returns (ok: bool, ghost n: nat)
    modifies kernel
    ensures Progress(old(kernel.state), SharedOps(s), n, ok, kernel.state)
    ensures ok ==> Installed(old(kernel.state), s, kernel.state)
  {
    hide Run, AddRules, RuleSpecs, Installed;
    SharedMeans(kernel.state, s);
    ghost var k := kernel.state;
    ghost var a, b, c := [AddLocal(LOCAL_RULE_PRIORITY), DelLocal(0)], [PutRoute(SharedRoute(s), s.table)],
      AddRules(RuleSpecs(Some(s)));
    assert SharedOps(s) == a + b + c && a + b + c == a + (b + c);
    ok, n := DemoteLocalRule(kernel);
    if !ok {
      ProgressFirst(k, a, b + c, n, kernel.state);
      return;
    }
    assert a[..n] == a;
    ghost var k1 := kernel.state;
    ok := kernel.Call(PutRoute(SharedRoute(s), s.table));
    if !ok {
      ProgressNone(k1, b + c);
      ProgressThen(k, a, b + c, 0, false, k1);
      n := |a|;
      return;
    }
    OneDone(k1, b[0]);
    RunConcat(k, a, b);
    ok, n := AddAllRules(kernel, RuleSpecs(Some(s)));
    ProgressThen(k, a + b, c, n, ok, kernel.state);
    n := |a + b| + n;
    if ok { Done(k, SharedOps(s), n, kernel.state); }
  }

  lemma OneDone(k: Kernel, op: Op)
    ensures Run(k, [op]) == Do(k, op)
  {
    assert [op][1..] == [];
  }

  lemma NoneDone(k: Kernel)
    ensures Run(k, []) == k
  {
  }

  /** setSysctl where it is wanted: a value that reads as set already is not written again. */
  method Enabled(kernel: Netlink, op: Op, wanted: bool, isSet: bool) returns (ok: bool)
    requires isSet ==> Do(kernel.state, op) == kernel.state
    modifies kernel
    ensures kernel.state == if wanted && ok then Do(old(kernel.state), op) else old(kernel.state)
    ensures !wanted ==> ok
  {
    ok := true;
    if wanted {
      var read := kernel.Ask();
      if !read || !isSet {
        ok := kernel.Call(op);
      }
    }
  }

  /** The sysctls at the end of Apply; one that is already set is not written again. */
  method EnableForwarding(kernel: Netlink, o: Options) returns (ok: bool, ghost n: nat)
    modifies kernel
    ensures Progress(old(kernel.state), ForwardOps(o), n, ok, kernel.state)
  {
    hide Run;
    ghost var k := kernel.state;
    ghost var a, b := if o.forward4 then [SetForward4] else [], if o.forward6 then [SetForward6] else [];
    OneDone(k, SetForward4);
    NoneDone(k);
    n := 0;
    ok := Enabled(kernel, SetForward4, o.forward4, kernel.state.forward4);
    if !ok {
      ProgressNone(k, a + b);
      return;
    }
    assert kernel.state == Run(k, a);
    ghost var k1 := kernel.state;
    OneDone(k1, SetForward6);
    NoneDone(k1);
    ok := Enabled(kernel, SetForward6, o.forward6, kernel.state.forward6);
    if !ok {
      ProgressNone(k1, b);
      ProgressThen(k, a, b, 0, false, k1);
      n := |a|;
      return;
    }
    assert kernel.state == Run(k1, b);
    ProgressDone(k1, b, kernel.state);
    ProgressThen(k, a, b, |b|, true, kernel.state);
    n := |a| + |b|;
  }

  lemma Regroup(a: seq<Op>, b: seq<Op>, c: seq<Op>, d: seq<Op>, e: seq<Op>)
    ensures a + b + c + d + e == a + b + (c + d + e) && a + b + c + d + e == a + b + c + (d + e)
  {
  }

  /** Apply: the link is looked up, then the operations in order, stopping at the first that fails. */
  method Apply(kernel: Netlink, o: Options) returns (ok: bool, ghost n: nat)
    modifies kernel
    ensures Progress(old(kernel.state), ApplyOps(o), n, ok, kernel.state)
  {
    hide Run, AddAddrs, PutRoutes, SharedOps, ForwardOps, Progress, Installed;
    ghost var k := kernel.state;
    ghost var a, b, c := [LinkUp], AddAddrs(o.addresses), PutRoutes(o.routes4 + o.routes6);
    ghost var d, e := if o.shared.Some? then SharedOps(o.shared.value) else [], ForwardOps(o);
    Regroup(a, b, c, d, e);
    n := 0;
    ok := kernel.Ask();
    if ok {
      ok := kernel.Call(LinkUp);
    }
    if !ok {
      ProgressNone(k, ApplyOps(o));
      return;
    }
    OneDone(k, LinkUp);
    ok, n := AddAddresses(kernel, o.addresses);
    ProgressThen(k, a, b, n, ok, kernel.state);
    n := |a| + n;
    if !ok {
      ProgressFirst(k, a + b, c + d + e, n, kernel.state);
      return;
    }
    Done(k, a + b, n, kernel.state);
    ok, n := AddAllRoutes(kernel, o.routes4 + o.routes6);
    ProgressThen(k, a + b, c, n, ok, kernel.state);
    n := |a + b| + n;
    if !ok {
      ProgressFirst(k, a + b + c, d + e, n, kernel.state);
      return;
    }
    Done(k, a + b + c, n, kernel.state);
    if o.shared.Some? {
      ok, n := ApplyShared(kernel, o.shared.value);
      ProgressThen(k, a + b + c, d, n, ok, kernel.state);
      n := |a + b + c| + n;
      if !ok {
        ProgressFirst(k, a + b + c + d, e, n, kernel.state);
        return;
      }
      Done(k, a + b + c + d, n, kernel.state);
    } else {
      assert a + b + c + d == a + b + c;
    }
    ok, n := EnableForwarding(kernel, o);
    ProgressThen(k, a + b + c + d, e, n, ok, kernel.state);
    n := |a + b + c + d| + n;
  }

  lemma Done(k: Kernel, ops: seq<Op>, n: nat, k': Kernel)
    requires Progress(k, ops, n, true, k')
    ensures k' == Run(k, ops)
  {
    assert ops[..n] == ops;
  }

  /** Removal of what next does not want any more. */
  method RemoveUnwanted(kernel: Netlink, prev: Options, next: Options) returns (ok: bool, ghost n: nat)
    modifies kernel
    ensures Progress(old(kernel.state), RemoveOps(prev, next), n, ok, kernel.state)
  {
    hide Run, DelAddrs, DelRoutes, DelRules, StaleRoutes, StaleRules, MissingPrefixes, RuleSpecs;
    ghost var k := kernel.state;
    var rs4 := FindStaleRoutes(prev.routes4, next.routes4);
    var rs6 := FindStaleRoutes(prev.routes6, next.routes6);
    var ps := FindMissingPrefixes(next.addresses, prev.addresses);
    ghost var a, b, c := DelRoutes(rs4 + rs6), DelAddrs(ps),
      DelRules(StaleRules(RuleSpecs(prev.shared), RuleSpecs(next.shared)));
    ghost var d := if SharedStale(prev.shared, next.shared)
      then [DelRoute(SharedRoute(prev.shared.value), prev.shared.value.table)] else [];
    assert a + b + c + d == a + (b + c + d) && a + b + c + d == a + b + (c + d);
    ok, n := RemoveRoutes(kernel, rs4 + rs6);
    if !ok {
      ProgressFirst(k, a, b + c + d, n, kernel.state);
      return;
    }
    Done(k, a, n, kernel.state);
    ok, n := RemoveAddresses(kernel, ps);
    ProgressThen(k, a, b, n, ok, kernel.state);
    n := |a| + n;
    if !ok {
      ProgressFirst(k, a + b, c + d, n, kernel.state);
      return;
    }
    Done(k, a + b, n, kernel.state);
    ok, n := RemoveStaleRules(kernel, prev.shared, next.shared);
    ProgressThen(k, a + b, c, n, ok, kernel.state);
    n := |a + b| + n;
    if !ok {
      ProgressFirst(k, a + b + c, d, n, kernel.state);
      return;
    }
    Done(k, a + b + c, n, kernel.state);
    ghost var k1 := kernel.state;
    if SharedStale(prev.shared, next.shared) {
      ok := kernel.Call(DelRoute(SharedRoute(prev.shared.value), prev.shared.value.table));
      if !ok {
        ProgressNone(k1, d);
        ProgressThen(k, a + b + c, d, 0, false, k1);
        n := |a + b + c|;
        return;
      }
      OneDone(k1, d[0]);
    } else {
      NoneDone(k1);
    }
    ProgressDone(k1, d, kernel.state);
    ProgressThen(k, a + b + c, d, |d|, true, kernel.state);
    n := |a + b + c| + |d|;
  }

  /** Update: removes what is stale, then applies what is new. */
  method Update(kernel: Netlink, prev: Options, next: Options) returns (ok: bool, ghost n: nat)
    modifies kernel
    ensures Progress(old(kernel.state), UpdateOps(prev, next), n, ok, kernel.state)
  {
    hide Run, RemoveOps, ApplyOps, MissingPrefixes, MissingRoutes;
    ghost var k, a, b := kernel.state, RemoveOps(prev, next), ApplyOps(Added(prev, next));
    n := 0;
    ok := kernel.Ask();
    if !ok {
      ProgressNone(k, a + b);
      return;
    }
    ok, n := RemoveUnwanted(kernel, prev, next);
    if !ok {
      ProgressFirst(k, a, b, n, kernel.state);
      return;
    }
    Done(k, a, n, kernel.state);
    var addresses := FindMissingPrefixes(prev.addresses, next.addresses);
    var routes4 := FindMissingRoutes(prev.routes4, next.routes4);
    var routes6 := FindMissingRoutes(prev.routes6, next.routes6);
    ok, n := Apply(kernel, Options(addresses, routes4, routes6, next.forward4 && !prev.forward4, next.forward6
      && !prev.forward6, next.shared));
    ProgressThen(k, a, b, n, ok, kernel.state);
    n := |a| + n;
  }

  /** An Apply that went through leaves what the options ask for. */
  lemma ApplyOutcome(o: Options, k: Kernel, n: nat, k': Kernel)
    requires ValidOptions(o) && Progress(k, ApplyOps(o), n, true, k')
    ensures Configured(k, o, k')
  {
    hide Run, ApplyOps, Configured, ValidOptions;
    Done(k, ApplyOps(o), n, k');
    ApplyMeans(k, o);
  }

  /**
   * What an Update leaves, whether it went through or stopped: it can be run again with the same arguments until it
   * goes through.
   */
  lemma UpdateOutcome(base: Kernel, prev: Options, next: Options, k: Kernel, n: nat, ok: bool, k': Kernel)
    requires ValidOptions(prev) && ValidOptions(next) && Free(base, prev) && Free(base, next)
             && Between(base, prev, next, k)
    requires Progress(k, UpdateOps(prev, next), n, ok, k')
    ensures Between(base, prev, next, k') && (ok ==> Converged(base, next, k') && Configured(base, next, k'))
  {
    hide Run, UpdateOps, Between, Converged, Configured, ValidOptions, Free;
    StoppedStaysBetween(base, prev, next, k, UpdateOps(prev, next)[..n]);
    if ok {
      Done(k, UpdateOps(prev, next), n, k');
      UpdateConverges(base, prev, next, k);
      ConvergedMeans(base, next, k');
    }
  }
}
