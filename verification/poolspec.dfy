/**
 * The dynamic pool as a state machine: every section of the pool that runs under its lock is one step, and so is the
 * store to a host's last-use time that lookups make after releasing the lock.
 */
module PoolSpec {
  import opened Bytes
  import opened NetUtil
  import opened Bits

  /** The pool prefix; usable offsets are 1..Max. */
  datatype Params = Params(base: nat, bits: nat)

  predicate ValidParams(c: Params) {
    8 <= c.bits <= 31 && Low(c.base, HostBits(c)) == 0 && c.base + Size(c) <= 0x1_0000_0000
  }

  function HostBits(c: Params): nat {
    if c.bits <= 32 then 32 - c.bits else 0
  }

  function Size(c: Params): nat {
    Pow2(HostBits(c))
  }

  function Max(c: Params): nat {
    Size(c) - 1
  }

  /** One assignment, as the value of a dynHost. */
  datatype Host = Host(v6: Addr6, lastUse: int, dormant: bool)

  /** Assignments by offset. */
  type State = map<nat, Host>

  /** Assignments sit at usable offsets and no IPv6 host has two. */
  ghost predicate Inv(c: Params, s: State) {
    && (forall off :: off in s ==> 1 <= off <= Max(c))
    && (forall x, y :: x in s && y in s && s[x].v6 == s[y].v6 ==> x == y)
  }

  ghost predicate IsMapped(s: State, a: Addr6, off: nat) {
    off in s && s[off].v6 == a && !s[off].dormant
  }

  ghost predicate IsDormant(s: State, a: Addr6, off: nat) {
    off in s && s[off].v6 == a && s[off].dormant
  }

  ghost predicate Known(s: State, a: Addr6) {
    exists off :: off in s && s[off].v6 == a
  }

  /** An offset that assign may hand out. */
  predicate Free(c: Params, s: State, reserved: nat -> bool, off: nat) {
    1 <= off <= Max(c) && off !in s && !reserved(c.base + off)
  }

  // ----- The hash -----

  /** The inner loop: adds the part above the host bits until nothing is above. */
  function FoldHash(c: Params, h: nat): (r: nat)
    requires ValidParams(c)
    ensures r <= Max(c)
    decreases h
  {
    if h <= Max(c) then h
    else
      FoldShrinks(h, HostBits(c));
      FoldHash(c, Low(h, HostBits(c)) + Shr(h, HostBits(c)))
  }

  /** The outer loop over the four words of the address, in 32-bit arithmetic. */
  function HashFrom(c: Params, a: Addr6, i: nat, h: nat): (r: nat)
    requires ValidParams(c) && i <= 16 && i % 4 == 0 && h <= Max(c)
    ensures r <= Max(c)
    decreases 16 - i
  {
    if i == 16 then h
    else HashFrom(c, a, i + 4, FoldHash(c, (h + Get32(a, i)) % 0x1_0000_0000))
  }

  function Hash(c: Params, a: Addr6): (r: nat)
    requires ValidParams(c)
    ensures r <= Max(c)
  {
    HashFrom(c, a, 0, 0)
  }

  // ----- The probe -----

  /** The offset tried i-th. */
  function ProbeAt(c: Params, h: nat, i: nat): nat {
    Low(h + i, HostBits(c))
  }

  /** The first free offset in probe order from the i-th on. */
  function Probe(c: Params, s: State, reserved: nat -> bool, h: nat, i: nat): (r: Option<nat>)
    requires i <= Size(c)
    ensures r.Some? ==> Free(c, s, reserved, r.value)
    decreases Size(c) - i
  {
    if i == Size(c) then None
    else if Free(c, s, reserved, ProbeAt(c, h, i)) then Some(ProbeAt(c, h, i))
    else Probe(c, s, reserved, h, i + 1)
  }

  lemma ProbeAtWraps(c: Params, h: nat, i: nat)
    requires h <= Max(c) && i <= Max(c)
    ensures ProbeAt(c, h, i) == if h + i < Size(c) then h + i else h + i - Size(c)
  {
    LowWraps(h + i, HostBits(c));
  }

  /** The probe visits every offset exactly once. */
  lemma ProbeVisitsOnce(c: Params, h: nat, off: nat)
    requires h <= Max(c) && off <= Max(c)
    ensures exists i :: 0 <= i <= Max(c) && ProbeAt(c, h, i) == off
    ensures forall i, j :: 0 <= i <= Max(c) && 0 <= j <= Max(c) && ProbeAt(c, h, i) == off == ProbeAt(c, h, j) ==>
              i == j
  {
    var i := if off >= h then off - h else off - h + Size(c);
    ProbeAtWraps(c, h, i);
    assert ProbeAt(c, h, i) == off;
    forall i, j | 0 <= i <= Max(c) && 0 <= j <= Max(c) && ProbeAt(c, h, i) == off && ProbeAt(c, h, j) == off
      ensures i == j
    {
      ProbeAtWraps(c, h, i);
      ProbeAtWraps(c, h, j);
    }
  }

  lemma {:induction false} ProbeMisses(c: Params, s: State, reserved: nat -> bool, h: nat, i: nat, j: nat)
    requires i <= j < Size(c) && Probe(c, s, reserved, h, i).None?
    ensures !Free(c, s, reserved, ProbeAt(c, h, j))
    decreases j - i
  {
    if i < j { ProbeMisses(c, s, reserved, h, i + 1, j); }
  }

  /** The probe is complete: it finds nothing only if no offset is free. */
  lemma ProbeComplete(c: Params, s: State, reserved: nat -> bool, h: nat, off: nat)
    requires h <= Max(c) && Probe(c, s, reserved, h, 0).None?
    ensures !Free(c, s, reserved, off)
  {
    if Free(c, s, reserved, off) {
      ProbeVisitsOnce(c, h, off);
      var i :| 0 <= i <= Max(c) && ProbeAt(c, h, i) == off;
      ProbeMisses(c, s, reserved, h, 0, i);
    }
  }

  // ----- The steps -----

  /** The store to lastUse in a lookup, or in assign when the host is already mapped. */
  function Touched(s: State, off: nat, now: int): State {
    if off in s then s[off := s[off].(lastUse := now)] else s
  }

  /** A dormant host that no other dormant host was idle longer than. */
  ghost predicate Oldest(s: State, off: nat) {
    && off in s && s[off].dormant
    && forall x :: x in s && s[x].dormant ==> s[off].lastUse <= s[x].lastUse
  }

  ghost predicate NoneDormant(s: State) {
    forall x :: x in s ==> !s[x].dormant
  }

  /** assign: the outcomes, in the order the code tries them. The result is the offset handed out, if any. */
  ghost predicate Assigns(c: Params, s: State, a: Addr6, now: int, reserved: nat -> bool, s': State, r: Option<nat>)
    requires ValidParams(c)
  {
    if Known(s, a) then
      r.Some? && r.value in s && s[r.value].v6 == a && s' == s[r.value := Host(a, now, false)]
    else
      var found := Probe(c, s, reserved, Hash(c, a), 0);
      if found.Some? then
        r == found && s' == s[r.value := Host(a, now, false)]
      else if NoneDormant(s) then
        r == None && s' == s
      else
        r.Some? && Oldest(s, r.value) && s' == s[r.value := Host(a, now, false)]
  }

  /** The same with the IPv4 address as the result. */
  ghost predicate AssignsAddress(c: Params, s: State, a: Addr6, now: int, reserved: nat -> bool, s': State,
                                 r: Option<U32>)
    requires ValidParams(c)
  {
    if r.None? then Assigns(c, s, a, now, reserved, s', None)
    else r.value >= c.base && Assigns(c, s, a, now, reserved, s', Some(r.value - c.base))
  }

  /** Maintain: idle mapped hosts become dormant, idle dormant ones are released. */
  function Aged(h: Host, now: int, minLease: int): Host {
    if h.lastUse + minLease < now then h.(dormant := true) else h
  }

  predicate Expired(h: Host, now: int, minLease: int, maxLease: int) {
    Aged(h, now, minLease).dormant && h.lastUse + maxLease < now
  }

  function Maintained(s: State, now: int, minLease: int, maxLease: int): State {
    map off | off in s && !Expired(s[off], now, minLease, maxLease) :: Aged(s[off], now, minLease)
  }

  /** A line of the state file, parsed. */
  datatype Line = Malformed | Line(v4: U32, v6: Addr6, last: int)

  /** The offset a line may take. */
  ghost predicate Accepts(c: Params, s: State, reserved: nat -> bool, l: Line) {
    && l.Line? && l.last > 0
    && c.base <= l.v4 < c.base + Size(c)
    && ValidIPv6(l.v6)
    && Free(c, s, reserved, l.v4 - c.base)
    && !Known(s, l.v6)
  }

  /** read's first loop: accepted lines enter as dormant. */
  ghost function AddLines(c: Params, s: State, reserved: nat -> bool, lines: seq<Line>): State
    decreases |lines|
  {
    if lines == [] then s
    else
      var l := lines[0];
      AddLines(c, if Accepts(c, s, reserved, l) then s[l.v4 - c.base := Host(l.v6, l.last, true)] else s, reserved,
        lines[1..])
  }

  /**
   * read's second loop, for one host: a clock from the future discredits all times, otherwise the short lease decides.
   */
  function SettledHost(h: Host, future: bool, now: int, minLease: int): Host {
    if future then h.(lastUse := now - minLease)
    else if h.lastUse + minLease >= now then h.(dormant := false)
    else h
  }

  /** Some host that was not there before was last used after now. */
  ghost predicate FromFuture(before: State, after: State, now: int) {
    exists off :: off in after && off !in before && after[off].lastUse > now
  }

  ghost function Settled(before: State, after: State, now: int, minLease: int): State {
    map off | off in after ::
      if off in before then after[off] else SettledHost(after[off], FromFuture(before, after, now), now, minLease)
  }

  /** read; when reading breaks off, the hosts loaded so far stay dormant. */
  ghost function Loaded(c: Params, s: State, reserved: nat -> bool, lines: seq<Line>, broken: bool, now: int,
                        minLease: int): State {
    var added := AddLines(c, s, reserved, lines);
    if broken then added else Settled(s, added, now, minLease)
  }

  datatype Step =
    | Touch(off: nat, now: int)
    | Assign(a: Addr6, now: int, reserved: nat -> bool, result: Option<nat>)
    | Maintain(now: int, minLease: int, maxLease: int)
    | Load(lines: seq<Line>, broken: bool, now: int, minLease: int, reserved: nat -> bool)

  ghost predicate Next(c: Params, s: State, step: Step, s': State)
    requires ValidParams(c)
  {
    match step
    case Touch(off, now) => s' == Touched(s, off, now)
    case Assign(a, now, reserved, r) => Assigns(c, s, a, now, reserved, s', r)
    case Maintain(now, minLease, maxLease) => s' == Maintained(s, now, minLease, maxLease)
    case Load(lines, broken, now, minLease, reserved) => s' == Loaded(c, s, reserved, lines, broken, now, minLease)
  }

  // ----- The invariant over every run -----

  lemma PutKeepsInv(c: Params, s: State, off: nat, h: Host)
    requires Inv(c, s) && 1 <= off <= Max(c)
    requires forall x :: x in s && s[x].v6 == h.v6 ==> x == off
    ensures Inv(c, s[off := h])
  {
    hide Max;
  }

  lemma AssignKeepsInv(c: Params, s: State, a: Addr6, now: int, reserved: nat -> bool, s': State, r: Option<nat>)
    requires ValidParams(c) && Inv(c, s) && Assigns(c, s, a, now, reserved, s', r)
    ensures Inv(c, s')
    ensures r.Some? ==> IsMapped(s', a, r.value)
  {
    hide Probe, Hash, Max, Size;
    if r.Some? { PutKeepsInv(c, s, r.value, Host(a, now, false)); }
  }

  lemma {:induction false} AddLinesKeepsInv(c: Params, s: State, reserved: nat -> bool, lines: seq<Line>)
    requires ValidParams(c) && Inv(c, s)
    ensures Inv(c, AddLines(c, s, reserved, lines))
    ensures forall off :: off in s ==>
                off in AddLines(c, s, reserved, lines) && AddLines(c, s, reserved, lines)[off] == s[off]
    decreases |lines|
  {
    if lines != [] {
      var l := lines[0];
      var s1 := if Accepts(c, s, reserved, l) then s[l.v4 - c.base := Host(l.v6, l.last, true)] else s;
      if Accepts(c, s, reserved, l) { PutKeepsInv(c, s, l.v4 - c.base, Host(l.v6, l.last, true)); }
      AddLinesKeepsInv(c, s1, reserved, lines[1..]);
    }
  }

  /** A step that keeps offsets and IPv6 addresses, or forgets some, keeps the invariant. */
  lemma ShrinkKeepsInv(c: Params, s: State, s': State)
    requires Inv(c, s) && forall off :: off in s' ==> off in s && s'[off].v6 == s[off].v6
    ensures Inv(c, s')
  {
    hide Max;
  }

  lemma SettledKeepsAddresses(before: State, after: State, now: int, minLease: int)
    ensures Settled(before, after, now, minLease).Keys == after.Keys
    ensures forall off :: off in after ==> Settled(before, after, now, minLease)[off].v6 == after[off].v6
  {
  }

  lemma NextKeepsInv(c: Params, s: State, step: Step, s': State)
    requires ValidParams(c) && Inv(c, s) && Next(c, s, step, s')
    ensures Inv(c, s')
  {
    hide Inv, Assigns, AddLines, Settled;
    match step
    case Touch(off, now) => ShrinkKeepsInv(c, s, s');
    case Assign(a, now, reserved, r) => AssignKeepsInv(c, s, a, now, reserved, s', r);
    case Maintain(now, minLease, maxLease) => ShrinkKeepsInv(c, s, s');
    case Load(lines, broken, now, minLease, reserved) =>
      var added := AddLines(c, s, reserved, lines);
      AddLinesKeepsInv(c, s, reserved, lines);
      SettledKeepsAddresses(s, added, now, minLease);
      ShrinkKeepsInv(c, added, s');
  }

  /** A run: any interleaving of steps, each with its own clock, leases and reserved hook. */
  ghost predicate Run(c: Params, states: seq<State>, steps: seq<Step>)
    requires ValidParams(c)
  {
    && |states| == |steps| + 1
    && forall i :: 0 <= i < |steps| ==> Next(c, states[i], steps[i], states[i + 1])
  }

  lemma {:induction false} RunKeepsInv(c: Params, states: seq<State>, steps: seq<Step>, i: nat)
    requires ValidParams(c) && Run(c, states, steps) && i < |states| && Inv(c, states[0])
    ensures Inv(c, states[i])
    decreases i
  {
    hide Next, Inv;
    if i > 0 {
      RunKeepsInv(c, states, steps, i - 1);
      assert Next(c, states[i - 1], steps[i - 1], states[i - 1 + 1]);
      NextKeepsInv(c, states[i - 1], steps[i - 1], states[i]);
    }
  }

  // ----- Allocation -----

  /**
   * assign is complete and least-recently-used: it fails exactly when the host is unknown, every usable offset is
   * taken or reserved and nothing is dormant; it takes an address from another host only when no offset is free, and
   * then from a dormant host that has been idle longest; everything else stays.
   */
  lemma AssignOutcome(c: Params, s: State, a: Addr6, now: int, reserved: nat -> bool, s': State, r: Option<nat>)
    requires ValidParams(c) && Inv(c, s) && Assigns(c, s, a, now, reserved, s', r)
    ensures r.None? <==> !Known(s, a) && (forall off :: !Free(c, s, reserved, off)) && NoneDormant(s)
    ensures r.None? ==> s' == s
    ensures r.Some? ==> s' == s[r.value := Host(a, now, false)]
    ensures r.Some? && r.value in s && s[r.value].v6 != a ==>
              (forall off :: !Free(c, s, reserved, off)) && Oldest(s, r.value)
    ensures r.Some? && Known(s, a) ==> r.value in s && s[r.value].v6 == a
    ensures r.Some? && !Known(s, a) && (exists off :: Free(c, s, reserved, off)) ==> Free(c, s, reserved, r.value)
  {
    hide Hash, Probe, Free, Oldest;
    var found := Probe(c, s, reserved, Hash(c, a), 0);
    if found.None? {
      forall off ensures !Free(c, s, reserved, off) { ProbeComplete(c, s, reserved, Hash(c, a), off); }
    } else {
      ProbeFinds(c, s, reserved, Hash(c, a));
    }
  }

  lemma ProbeFinds(c: Params, s: State, reserved: nat -> bool, h: nat)
    requires Probe(c, s, reserved, h, 0).Some?
    ensures Free(c, s, reserved, Probe(c, s, reserved, h, 0).value)
    ensures Probe(c, s, reserved, h, 0).value !in s
  {
  }

  // ----- Leases -----

  /** After maintenance nobody is past a lease. */
  lemma MaintainedWithinLeases(s: State, now: int, minLease: int, maxLease: int, off: nat)
    requires off in Maintained(s, now, minLease, maxLease)
    ensures var h := Maintained(s, now, minLease, maxLease)[off];
            if h.dormant then now <= h.lastUse + maxLease else now <= h.lastUse + minLease
  {
  }

  /**
   * Maintenance forgets exactly the hosts past the long lease that do not hold the short one, and changes of the others
   * only the dormant flag.
   */
  lemma MaintainedForgets(s: State, now: int, minLease: int, maxLease: int, off: nat)
    requires off in s
    ensures off in Maintained(s, now, minLease, maxLease)
            <==> now <= s[off].lastUse + maxLease || (!s[off].dormant && now <= s[off].lastUse + minLease)
    ensures off in Maintained(s, now, minLease, maxLease) ==>
              Maintained(s, now, minLease, maxLease)[off] ==
              s[off].(dormant := s[off].dormant || s[off].lastUse + minLease < now)
  {
  }

  /** The clock of a step never runs behind t, and maintenance comes no later than the short lease after t. */
  predicate WithinLease(step: Step, t: int, minLease: int) {
    match step
    case Touch(_, now) => now >= t
    case Assign(_, now, _, _) => now >= t
    case Maintain(now, m, _) => m == minLease && now <= t + minLease
    case Load(_, _, _, _, _) => true
  }

  ghost predicate Holds(s: State, off: nat, a: Addr6, t: int) {
    off in s && s[off].v6 == a && !s[off].dormant && s[off].lastUse >= t
  }

  lemma StepKeepsLease(c: Params, s: State, step: Step, s': State, off: nat, a: Addr6, t: int, minLease: int)
    requires ValidParams(c) && Inv(c, s) && Next(c, s, step, s') && Holds(s, off, a, t)
             && WithinLease(step, t, minLease)
    ensures Holds(s', off, a, t)
  {
    hide Assigns, AddLines, Inv;
    match step
    case Touch(_, _) =>
    case Assign(b, now, reserved, r) =>
      AssignOutcome(c, s, b, now, reserved, s', r);
      if r.Some? && r.value == off && b != a { OldestIsDormant(s, off); }
    case Maintain(_, _, _) =>
    case Load(lines, broken, now, m, reserved) => AddLinesKeepsInv(c, s, reserved, lines);
  }

  lemma OldestIsDormant(s: State, off: nat)
    requires Oldest(s, off)
    ensures off in s && s[off].dormant
  {
  }

  /**
   * A host used at time t keeps its address mapped throughout every run whose maintenance comes within the short lease.
   */
  lemma {:induction false} LeaseKept(c: Params, states: seq<State>, steps: seq<Step>, i: nat, off: nat, a: Addr6,
                                     t: int, minLease: int)
    requires ValidParams(c) && Run(c, states, steps) && i < |states| && Inv(c, states[0])
    requires Holds(states[0], off, a, t) && forall k :: 0 <= k < |steps| ==> WithinLease(steps[k], t, minLease)
    ensures Holds(states[i], off, a, t)
    decreases i
  {
    hide Next, Inv, Holds, WithinLease;
    if i > 0 {
      LeaseKept(c, states, steps, i - 1, off, a, t, minLease);
      RunKeepsInv(c, states, steps, i - 1);
      assert Next(c, states[i - 1], steps[i - 1], states[i - 1 + 1]);
      StepKeepsLease(c, states[i - 1], steps[i - 1], states[i], off, a, t, minLease);
    }
  }

  /** The two ways to lose an address: maintenance finds it idle beyond the long lease, or a full pool gives it away. */
  ghost predicate Loses(c: Params, s: State, step: Step, off: nat)
    requires ValidParams(c)
  {
    && off in s
    && match step
       case Maintain(now, minLease, maxLease) => s[off].lastUse + maxLease < now
       case Assign(b, now, reserved, r) =>
         b != s[off].v6 && r == Some(off) && Oldest(s, off) && forall x :: !Free(c, s, reserved, x)
       case _ => false
  }

  lemma StepLoses(c: Params, s: State, step: Step, s': State, off: nat)
    requires ValidParams(c) && Inv(c, s) && Next(c, s, step, s') && off in s
    ensures (off in s' && s'[off].v6 == s[off].v6) || Loses(c, s, step, off)
  {
    hide Assigns, AddLines, Inv, Free, Oldest;
    match step
    case Touch(_, _) =>
    case Assign(b, now, reserved, r) => AssignOutcome(c, s, b, now, reserved, s', r);
    case Maintain(_, _, _) =>
    case Load(lines, broken, now, m, reserved) => AddLinesKeepsInv(c, s, reserved, lines);
  }

  /** Over every run: an address changes hands only through expiry or through a steal from a full pool. */
  lemma {:induction false} ChangesHandsOnly(c: Params, states: seq<State>, steps: seq<Step>, off: nat, a: Addr6)
    requires ValidParams(c) && Run(c, states, steps) && Inv(c, states[0])
    requires off in states[0] && states[0][off].v6 == a
    requires !(off in states[|steps|] && states[|steps|][off].v6 == a)
    ensures exists i :: 0 <= i < |steps| && off in states[i] && states[i][off].v6 == a
              && Loses(c, states[i], steps[i], off)
    decreases |steps|
  {
    hide Next, Inv, Loses;
    var n := |steps| - 1;
    RunKeepsInv(c, states, steps, n);
    assert Next(c, states[n], steps[n], states[n + 1]);
    if off in states[n] && states[n][off].v6 == a {
      StepLoses(c, states[n], steps[n], states[n + 1], off);
    } else {
      var states', steps' := states[..n + 1], steps[..n];
      forall k | 0 <= k < n ensures Next(c, states'[k], steps'[k], states'[k + 1]) {
        assert Next(c, states[k], steps[k], states[k + 1]);
      }
      ChangesHandsOnly(c, states', steps', off, a);
      var i :| 0 <= i < |steps'| && off in states'[i] && states'[i][off].v6 == a
        && Loses(c, states'[i], steps'[i], off);
      assert states[i] == states'[i] && steps[i] == steps'[i];
    }
  }

  // ----- Save and load -----

  /** What write puts out: one line per assignment, in the order of offsets, from `off` on. */
  function SavedFrom(c: Params, s: State, off: nat): seq<Line>
    requires ValidParams(c) && off <= Size(c)
    decreases Size(c) - off
  {
    if off == Size(c) then []
    else (if off in s then [Line(c.base + off, s[off].v6, s[off].lastUse)] else []) + SavedFrom(c, s, off + 1)
  }

  function Saved(c: Params, s: State): seq<Line>
    requires ValidParams(c)
  {
    SavedFrom(c, s, 0)
  }

  /** The assignments below `off`, as read's first loop holds them. */
  ghost function Below(s: State, off: nat): State {
    map x | x in s && x < off :: s[x].(dormant := true)
  }

  ghost predicate Restorable(c: Params, s: State, reserved: nat -> bool, now: int) {
    forall off :: off in s ==> ValidIPv6(s[off].v6) && 1 <= s[off].lastUse <= now && !reserved(c.base + off)
  }

  lemma BelowAccepts(c: Params, s: State, reserved: nat -> bool, now: int, off: nat)
    requires ValidParams(c) && Inv(c, s) && Restorable(c, s, reserved, now) && off < Size(c) && off in s
    ensures Accepts(c, Below(s, off), reserved, Line(c.base + off, s[off].v6, s[off].lastUse))
  {
    hide ValidIPv6, Size;
  }

  lemma BelowNext(s: State, off: nat)
    requires off in s
    ensures Below(s, off + 1) == Below(s, off)[off := Host(s[off].v6, s[off].lastUse, true)]
  {
  }

  lemma {:induction false} AddLinesRestores(c: Params, s: State, reserved: nat -> bool, now: int, off: nat)
    requires ValidParams(c) && Inv(c, s) && Restorable(c, s, reserved, now) && off <= Size(c)
    ensures AddLines(c, Below(s, off), reserved, SavedFrom(c, s, off)) == Below(s, Size(c))
    decreases Size(c) - off
  {
    hide Inv, Restorable, Below, Accepts, Size;
    if off < Size(c) {
      var rest := SavedFrom(c, s, off + 1);
      AddLinesRestores(c, s, reserved, now, off + 1);
      if off in s {
        var l := Line(c.base + off, s[off].v6, s[off].lastUse);
        BelowAccepts(c, s, reserved, now, off);
        BelowNext(s, off);
        assert ([l] + rest)[1..] == rest;
      } else {
        BelowSame(s, off);
        assert SavedFrom(c, s, off) == [] + rest == rest;
      }
    }
  }

  lemma BelowSame(s: State, off: nat)
    requires off !in s
    ensures Below(s, off + 1) == Below(s, off)
  {
  }

  lemma SettlesRestored(s: State, added: State, now: int, minLease: int)
    requires added == map off | off in s :: s[off].(dormant := true)
    requires forall off :: off in s ==> s[off].lastUse <= now
    ensures Settled(map[], added, now, minLease)
         == map off | off in s :: Host(s[off].v6, s[off].lastUse, s[off].lastUse + minLease < now)
  {
    assert !FromFuture(map[], added, now);
  }

  /**
   * Save then load: reading the written lines into an empty pool of the same prefix gives every host the same
   * addresses and last use back, mapped exactly if the short lease still runs.
   */
  lemma SaveLoadRestores(c: Params, s: State, reserved: nat -> bool, now: int, minLease: int)
    requires ValidParams(c) && Inv(c, s) && Restorable(c, s, reserved, now)
    ensures Loaded(c, map[], reserved, Saved(c, s), false, now, minLease)
         == map off | off in s :: Host(s[off].v6, s[off].lastUse, s[off].lastUse + minLease < now)
  {
    hide AddLines, SavedFrom, Settled;
    assert Below(s, 0) == map[];
    AddLinesRestores(c, s, reserved, now, 0);
    var added := Below(s, Size(c));
    assert added == map off | off in s :: s[off].(dormant := true);
    SettlesRestored(s, added, now, minLease);
  }
}
