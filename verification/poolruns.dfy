/** What handling packets does to the pool is a run of its state machine, so the laws over every run apply. */
module PoolRuns {
  import opened Bytes
  import opened NetUtil
  import opened PoolSpec
  import opened Prefixes
  import opened Xlate
  import opened Table
  import opened TableLaws
  import opened AddressMap
  import opened Mappers

  /** A step that a lookup through the table t makes, at one of the given times. */
  ghost predicate LookupStep(t: Table, c: Params, step: Step, clock: set<int>) {
    WellFormed(t) && ValidParams(c) && (step.Touch? || step.Assign?) && step.now in clock && ThroughTable(t, c, step)
  }

  /** A run of such steps from s to s'. */
  ghost predicate Leads(t: Table, c: Params, s: State, s': State, states: seq<State>, steps: seq<Step>,
                        clock: set<int>) {
    && ValidParams(c) && Run(c, states, steps) && states[0] == s && states[|steps|] == s'
    && forall k :: 0 <= k < |steps| ==> LookupStep(t, c, steps[k], clock)
  }

  lemma LeadsNowhere(t: Table, c: Params, s: State, clock: set<int>)
    requires ValidParams(c)
    ensures Leads(t, c, s, s, [s], [], clock)
  {
  }

  lemma LeadsByOne(t: Table, c: Params, s: State, step: Step, s': State, clock: set<int>)
    requires ValidParams(c) && Next(c, s, step, s') && LookupStep(t, c, step, clock)
    ensures Leads(t, c, s, s', [s, s'], [step], clock)
  {
    hide Next, LookupStep, ValidParams;
  }

  /** Two runs, one after the other. */
  lemma LeadsOn(t: Table, c: Params, s: State, s1: State, s2: State, states: seq<State>, steps: seq<Step>,
                states': seq<State>, steps': seq<Step>, clock: set<int>, clock': set<int>)
    returns (all: seq<State>, done: seq<Step>)
    requires Leads(t, c, s, s1, states, steps, clock) && Leads(t, c, s1, s2, states', steps', clock')
    ensures Leads(t, c, s, s2, all, done, clock + clock')
  {
    hide Next, ThroughTable, ValidParams, WellFormed;
    all, done := states[..|steps|] + states', steps + steps';
    forall i | 0 <= i < |done|
      ensures Next(c, all[i], done[i], all[i + 1])
              && LookupStep(t, c, done[i], clock + clock')
    {
      if i < |steps| {
        assert Next(c, states[i], steps[i], states[i + 1]) && LookupStep(t, c, steps[i], clock);
      } else {
        var j := i - |steps|;
        assert Next(c, states'[j], steps'[j], states'[j + 1]) && LookupStep(t, c, steps'[j], clock');
      }
    }
  }

  ghost function Changed(s: State, s': State): set<nat> {
    set off | off in s && off in s' && s[off] != s'[off]
  }

  lemma NoneChanged(s: State, s': State)
    requires s.Keys == s'.Keys && Changed(s, s') == {}
    ensures s == s'
  {
    forall off | off in s ensures s[off] == s'[off] {
      assert off !in Changed(s, s');
    }
  }

  lemma TouchedChanged(s: State, s': State, off: nat, now: int)
    requires off in Changed(s, s') && Touched(s, off, now)[off] == s'[off]
    ensures |Changed(Touched(s, off, now), s')| < |Changed(s, s')|
  {
    assert Changed(Touched(s, off, now), s') == Changed(s, s') - {off};
  }

  /** The use of hosts is a run of touches. */
  lemma {:induction false} UsedLeads(t: Table, c: Params, s: State, s': State, now: int)
    returns (states: seq<State>, steps: seq<Step>)
    requires WellFormed(t) && ValidParams(c) && Used(WithPool(c, s), WithPool(c, s'), now)
    ensures Leads(t, c, s, s', states, steps, {now})
    decreases |Changed(s, s')|
  {
    hide ValidParams, WellFormed, Leads;
    if Changed(s, s') == {} {
      NoneChanged(s, s');
      LeadsNowhere(t, c, s, {now});
      return [s], [];
    }
    var off :| off in Changed(s, s');
    var s1 := Touched(s, off, now);
    TouchedChanged(s, s', off, now);
    states, steps := UsedLeads(t, c, s1, s', now);
    LeadsByOne(t, c, s, Touch(off, now), s1, {now});
    states, steps := LeadsOn(t, c, s, s1, s', [s, s1], [Touch(off, now)], states, steps, {now}, {now});
    assert {now} + {now} == {now};
  }

  /** An assignment that a lookup asks for. */
  lemma GetsLeads(t: Table, c: Params, s: State, x: Addr6, now: int, reserved: nat -> bool, s': State,
                  r: MapResult<Addr4>) returns (step: Step)
    requires WellFormed(t) && ValidParams(c) && Gets(c, s, x, now, reserved, s', r)
    requires Lookup6(t, x) == None && ValidIPv6(x) && forall v: nat :: reserved(v) == ReservedBy(t, c, v)
    ensures Leads(t, c, s, s', [s, s'], [step], {now}) && step.Assign? && step.a == x
    ensures r.Mapped? ==> Val4(r.addr) >= c.base && step.result == Some(Val4(r.addr) - c.base)
  {
    hide Assigns, Lookup6, ReservedBy, ValidIPv6, ValidParams;
    step := Assign(x, now, reserved, if r.Mapped? then Some(Val4(r.addr) - c.base) else None);
    LeadsByOne(t, c, s, step, s', {now});
  }

  /** Handling one packet moves a pool behind its table by touches and at most one assignment, all at one time. */
  lemma MovedLeads(t: Table, v: PoolView, w: PoolView, src: Option<Addr6>, now: int, reserved: nat -> bool,
                   r: MapResult<Addr4>)
    returns (states: seq<State>, steps: seq<Step>)
    requires WellFormed(t) && v.WithPool? && GoodView(v) && Moved(t, v, w, src, now, reserved, r)
    requires (src.Some? ==> ValidIPv6(src.value)) && forall x: nat :: reserved(x) == ReservedBy(t, v.c, x)
    ensures w.WithPool? && w.c == v.c && Leads(t, v.c, v.s, w.s, states, steps, {now})
  {
    hide Lookup6, ReservedBy, ValidIPv6, ValidParams, Inv, WellFormed, Leads, Gets;
    if src.Some? && Asks(t, v, src.value, true) {
      var mid: State :| Used(v, WithPool(v.c, mid), now) && Gets(v.c, mid, src.value, now, reserved, w.s, r);
      var states1, steps1 := UsedLeads(t, v.c, v.s, mid, now);
      var step := GetsLeads(t, v.c, mid, src.value, now, reserved, w.s, r);
      states, steps := LeadsOn(t, v.c, v.s, mid, w.s, states1, steps1, [mid, w.s], [step], {now}, {now});
      assert {now} + {now} == {now};
    } else {
      states, steps := UsedLeads(t, v.c, v.s, w.s, now);
    }
  }
}
