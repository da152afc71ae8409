/** The pool's bitmap and its three indexes over shared hosts, and what the pool's operations do to them. */
module PoolIndex {
  import opened Bytes
  import opened NetUtil
  import opened Bits
  import opened PoolSpec

  class DynHost {
    const v4: U32
    const off: nat
    var v6: Addr6
    var lastUse: int
    var dormant: bool

    constructor (v4: U32, v6: Addr6, off: nat, lastUse: int, dormant: bool)
      ensures this.v4 == v4 && this.v6 == v6 && this.off == off && this.lastUse == lastUse && this.dormant == dormant
    {
      this.v4, this.v6, this.off, this.lastUse, this.dormant := v4, v6, off, lastUse, dormant;
    }

    function Value(): Host
      reads this
    {
      Host(v6, lastUse, dormant)
    }
  }

  // ----- The bitmap -----

  /** used[off/64] & (1 << off%64) != 0 */
  predicate Marked(words: seq<U64>, off: nat)
    requires off < 64 * |words|
  {
    And(words[off / 64], Pow2(off % 64)) != 0
  }

  /** Offset 0 is always marked; otherwise the bitmap marks exactly the assigned offsets. */
  ghost predicate BitmapOk(words: seq<U64>, offs: set<nat>) {
    forall off :: 0 <= off < 64 * |words| ==> (Marked(words, off) <==> off == 0 || off in offs)
  }

  /** Setting one bit marks that offset and no other. */
  lemma SetMarks(words: seq<U64>, off: nat, o: nat)
    requires off < 64 * |words| && o < 64 * |words|
    ensures Or(words[off / 64], Pow2(off % 64)) < 0x1_0000_0000_0000_0000
    ensures Marked(words[off / 64 := Or(words[off / 64], Pow2(off % 64))], o) <==> o == off || Marked(words, o)
  {
    hide Or, And, Pow2;
    Pow2Values();
    Pow2Monotone(off % 64, 64);
    OrBound(words[off / 64], Pow2(off % 64), 64);
    AndMask(words[o / 64], o % 64);
    AndMask(Or(words[o / 64], Pow2(off % 64)), o % 64);
    OrBits(words[o / 64], Pow2(off % 64), o % 64);
    Pow2Bits(off % 64, o % 64);
  }

  lemma ClearUnmarks(words: seq<U64>, off: nat, o: nat)
    requires off < 64 * |words| && o < 64 * |words|
    ensures AndNot(words[off / 64], Pow2(off % 64)) <= words[off / 64]
    ensures Marked(words[off / 64 := AndNot(words[off / 64], Pow2(off % 64))], o) <==> o != off && Marked(words, o)
  {
    hide AndNot, And, Pow2;
    AndNotBound(words[off / 64], Pow2(off % 64));
    AndMask(words[o / 64], o % 64);
    AndMask(AndNot(words[o / 64], Pow2(off % 64)), o % 64);
    AndNotBits(words[o / 64], Pow2(off % 64), o % 64);
    Pow2Bits(off % 64, o % 64);
  }

  // ----- The indexes -----

  type ByOffset = map<nat, DynHost>
  type ByAddress = map<Addr6, DynHost>

  /** A host sits under its own offset, which never changes, nor does its IPv4 address. */
  ghost predicate Placed(c: Params, by4: ByOffset) {
    forall off :: off in by4 ==> 1 <= off <= Max(c) && by4[off].off == off && by4[off].v4 == c.base + off
  }

  /** The host at off is in the one of the two other indexes that its flag says, under its own address. */
  ghost predicate Filed(by4: ByOffset, mapped: ByAddress, dormant: ByAddress, s: State, off: nat)
    requires off in by4 && off in s
  {
    var a := s[off].v6;
    if s[off].dormant then a in dormant && dormant[a] == by4[off] else a in mapped && mapped[a] == by4[off]
  }

  /** d is a host of the pool with address a and the given flag. */
  ghost predicate Indexed(by4: ByOffset, s: State, a: Addr6, d: DynHost, asleep: bool) {
    d.off in by4 && by4[d.off] == d && d.off in s && s[d.off].v6 == a && s[d.off].dormant == asleep
  }

  ghost predicate AllFiled(by4: ByOffset, mapped: ByAddress, dormant: ByAddress, s: State)
    requires s.Keys == by4.Keys
  {
    forall off :: off in by4 ==> Filed(by4, mapped, dormant, s, off)
  }

  ghost predicate AllIndexed(by4: ByOffset, s: State, index: ByAddress, asleep: bool) {
    forall a :: a in index ==> Indexed(by4, s, a, index[a], asleep)
  }

  /**
   * Every host by offset is in exactly one of the other indexes, under its own address, and these hold nothing else.
   */
  ghost predicate IndexesOk(c: Params, by4: ByOffset, mapped: ByAddress, dormant: ByAddress, s: State) {
    && s.Keys == by4.Keys
    && Placed(c, by4)
    && AllFiled(by4, mapped, dormant, s)
    && AllIndexed(by4, s, mapped, false)
    && AllIndexed(by4, s, dormant, true)
    && mapped.Keys !! dormant.Keys
  }

  /** The indexes agree with the state, and the state satisfies its invariant. */
  lemma IndexesAgree(c: Params, by4: ByOffset, mapped: ByAddress, dormant: ByAddress, s: State)
    requires IndexesOk(c, by4, mapped, dormant, s)
    ensures Inv(c, s)
    ensures forall a :: a in mapped ==> IsMapped(s, a, mapped[a].off)
    ensures forall a :: a in dormant ==> IsDormant(s, a, dormant[a].off)
    ensures forall a :: Known(s, a) <==> a in mapped || a in dormant
  {
    hide Max;
    forall x, y | x in s && y in s && s[x].v6 == s[y].v6 ensures x == y {
      assert Filed(by4, mapped, dormant, s, x) && Filed(by4, mapped, dormant, s, y);
    }
    forall a ensures Known(s, a) <==> a in mapped || a in dormant {
      if Known(s, a) {
        var off :| off in s && s[off].v6 == a;
        assert Filed(by4, mapped, dormant, s, off);
      }
    }
  }

  /** The indexes do not depend on last-use times. */
  lemma TouchedIndexes(c: Params, by4: ByOffset, mapped: ByAddress, dormant: ByAddress, s: State, off: nat, now: int)
    requires IndexesOk(c, by4, mapped, dormant, s)
    ensures IndexesOk(c, by4, mapped, dormant, Touched(s, off, now))
  {
    hide Placed;
    var s' := Touched(s, off, now);
    assert AllFiled(by4, mapped, dormant, s') by {
      forall o | o in by4 ensures Filed(by4, mapped, dormant, s', o) { assert Filed(by4, mapped, dormant, s, o); }
    }
    assert AllIndexed(by4, s', mapped, false) by {
      forall a | a in mapped ensures Indexed(by4, s', a, mapped[a], false) {
        assert Indexed(by4, s, a, mapped[a], false);
      }
    }
    assert AllIndexed(by4, s', dormant, true) by {
      forall a | a in dormant ensures Indexed(by4, s', a, dormant[a], true) {
        assert Indexed(by4, s, a, dormant[a], true);
      }
    }
    hide AllFiled, AllIndexed;
  }

  /**
   * What fresh allocation, reactivation and stealing have in common: d becomes the mapped host of a at its offset,
   * and if d was in the pool it was dormant.
   */
  ghost predicate CanTake(c: Params, by4: ByOffset, mapped: ByAddress, dormant: ByAddress, s: State, d: DynHost,
                          a: Addr6) {
    && IndexesOk(c, by4, mapped, dormant, s)
    && 1 <= d.off <= Max(c) && d.v4 == c.base + d.off && a !in mapped
    && (d.off in by4 ==> by4[d.off] == d && s[d.off].dormant)
    && (a in dormant ==> dormant[a] == d)
  }

  ghost function Without(dormant: ByAddress, d: DynHost): ByAddress {
    map b | b in dormant && dormant[b] != d :: dormant[b]
  }

  lemma TakenFiled(c: Params, by4: ByOffset, mapped: ByAddress, dormant: ByAddress, s: State, d: DynHost, a: Addr6,
                   now: int)
    requires CanTake(c, by4, mapped, dormant, s, d, a)
    ensures AllFiled(by4[d.off := d], mapped[a := d], Without(dormant, d), s[d.off := Host(a, now, false)])
  {
    hide Max, Placed, AllIndexed;
    var by4', mapped', dormant', s' := by4[d.off := d], mapped[a := d], Without(dormant, d),
      s[d.off := Host(a, now, false)];
    forall o | o in by4' ensures Filed(by4', mapped', dormant', s', o) {
      if o != d.off {
        assert Filed(by4, mapped, dormant, s, o);
        assert by4[o] != d by { PlacedApart(c, by4, o, d); }
      }
    }
  }

  lemma PlacedApart(c: Params, by4: ByOffset, o: nat, d: DynHost)
    requires Placed(c, by4) && o in by4 && o != d.off
    ensures by4[o] != d
  {
  }

  lemma TakenIndexed(c: Params, by4: ByOffset, mapped: ByAddress, dormant: ByAddress, s: State, d: DynHost, a: Addr6,
                     now: int)
    requires CanTake(c, by4, mapped, dormant, s, d, a)
    ensures AllIndexed(by4[d.off := d], s[d.off := Host(a, now, false)], mapped[a := d], false)
    ensures AllIndexed(by4[d.off := d], s[d.off := Host(a, now, false)], Without(dormant, d), true)
  {
    hide Max, Placed, AllFiled;
    var by4', mapped', dormant', s' := by4[d.off := d], mapped[a := d], Without(dormant, d),
      s[d.off := Host(a, now, false)];
    forall b | b in mapped' ensures Indexed(by4', s', b, mapped'[b], false) {
      if b != a { assert Indexed(by4, s, b, mapped[b], false); }
    }
    forall b | b in dormant' ensures Indexed(by4', s', b, dormant'[b], true) {
      assert Indexed(by4, s, b, dormant[b], true);
    }
  }

  lemma TakenIndexes(c: Params, by4: ByOffset, mapped: ByAddress, dormant: ByAddress, s: State, d: DynHost, a: Addr6,
                     now: int)
    requires CanTake(c, by4, mapped, dormant, s, d, a)
    ensures IndexesOk(c, by4[d.off := d], mapped[a := d], Without(dormant, d), s[d.off := Host(a, now, false)])
  {
    TakenFiled(c, by4, mapped, dormant, s, d, a, now);
    TakenIndexed(c, by4, mapped, dormant, s, d, a, now);
    assert Placed(c, by4[d.off := d]);
    hide AllFiled, AllIndexed, Placed;
  }

  lemma KnownAssigns(c: Params, s: State, a: Addr6, now: int, reserved: nat -> bool, off: nat)
    requires ValidParams(c) && Inv(c, s) && off in s && s[off].v6 == a
    ensures c.base + off < 0x1_0000_0000 && Known(s, a)
    ensures AssignsAddress(c, s, a, now, reserved, s[off := Host(a, now, false)], Some(c.base + off))
  {
  }

  lemma FreshAssigns(c: Params, s: State, a: Addr6, now: int, reserved: nat -> bool, off: nat)
    requires ValidParams(c) && !Known(s, a) && Probe(c, s, reserved, Hash(c, a), 0) == Some(off) && off <= Max(c)
    ensures AssignsAddress(c, s, a, now, reserved, s[off := Host(a, now, false)], Some(c.base + off))
  {
  }

  lemma StolenAssigns(c: Params, s: State, a: Addr6, now: int, reserved: nat -> bool, off: nat)
    requires ValidParams(c) && !Known(s, a) && Probe(c, s, reserved, Hash(c, a), 0) == None && Oldest(s, off)
             && off <= Max(c)
    ensures AssignsAddress(c, s, a, now, reserved, s[off := Host(a, now, false)], Some(c.base + off))
  {
  }

  lemma NothingAssigns(c: Params, s: State, a: Addr6, now: int, reserved: nat -> bool)
    requires ValidParams(c) && !Known(s, a) && Probe(c, s, reserved, Hash(c, a), 0) == None && NoneDormant(s)
    ensures AssignsAddress(c, s, a, now, reserved, s, None)
  {
  }

  lemma DormantFiled(c: Params, by4: ByOffset, mapped: ByAddress, dormant: ByAddress, s: State, a: Addr6, d: DynHost)
    requires IndexesOk(c, by4, mapped, dormant, s) && Indexed(by4, s, a, d, true)
    ensures a in dormant && dormant[a] == d && 1 <= d.off <= Max(c) && d.v4 == c.base + d.off
    ensures dormant - {a} == Without(dormant, d)
  {
    assert Filed(by4, mapped, dormant, s, d.off);
    OnlyUnder(by4, s, dormant, a, d);
  }

  lemma MappedIn(c: Params, by4: ByOffset, mapped: ByAddress, dormant: ByAddress, s: State, a: Addr6)
    requires IndexesOk(c, by4, mapped, dormant, s) && a in mapped
    ensures var d := mapped[a];
            d in by4.Values && d.off in by4 && by4[d.off] == d && d.off in s && s[d.off].v6 == a && !s[d.off].dormant
  {
    assert Indexed(by4, s, a, mapped[a], false);
  }

  /** An object that is not at its offset in the pool is in no index. */
  lemma NotYet(c: Params, by4: ByOffset, mapped: ByAddress, dormant: ByAddress, s: State, d: DynHost)
    requires IndexesOk(c, by4, mapped, dormant, s) && d.off !in by4
    ensures forall b :: b in dormant ==> dormant[b] != d
  {
    forall b | b in dormant ensures dormant[b] != d { assert Indexed(by4, s, b, dormant[b], true); }
  }

  lemma FoundIsFree(c: Params, s: State, reserved: nat -> bool, h: nat)
    requires Probe(c, s, reserved, h, 0).Some?
    ensures 1 <= Probe(c, s, reserved, h, 0).value <= Max(c) && Probe(c, s, reserved, h, 0).value !in s
  {
  }

  lemma ProbeStep(c: Params, s: State, reserved: nat -> bool, h: nat, i: nat)
    requires i < Size(c)
    ensures Probe(c, s, reserved, h, i) ==
            if Free(c, s, reserved, ProbeAt(c, h, i)) then Some(ProbeAt(c, h, i)) else Probe(c, s, reserved, h, i + 1)
  {
  }

  lemma ProbeDone(c: Params, s: State, reserved: nat -> bool, h: nat)
    ensures Probe(c, s, reserved, h, Size(c)) == None
  {
  }

  lemma HashStep(c: Params, a: Addr6, i: nat, h: nat)
    requires ValidParams(c) && i < 16 && i % 4 == 0 && h <= Max(c)
    ensures HashFrom(c, a, i, h) == HashFrom(c, a, i + 4, FoldHash(c, (h + Get32(a, i)) % 0x1_0000_0000))
  {
  }

  lemma HashDone(c: Params, a: Addr6, h: nat)
    requires ValidParams(c) && h <= Max(c)
    ensures HashFrom(c, a, 16, h) == h
  {
  }

  /** h &^ (2^k - 1) is zero exactly when h has no high part. */
  lemma {:induction false} MaskedHigh(h: nat, k: nat)
    ensures AndNot(h, Pow2(k) - 1) == 0 <==> h <= Pow2(k) - 1
    decreases k
  {
    if k == 0 {
      AndNotZero(h);
    } else if h > 0 {
      MaskedHigh(h / 2, k - 1);
      assert (Pow2(k) - 1) % 2 == 1 && (Pow2(k) - 1) / 2 == Pow2(k - 1) - 1;
    }
  }

  lemma {:induction false} AndNotZero(h: nat)
    ensures AndNot(h, 0) == h
    decreases h
  {
    if h > 0 { AndNotZero(h / 2); }
  }

  lemma IndexesPlaced(c: Params, by4: ByOffset, mapped: ByAddress, dormant: ByAddress, s: State)
    requires IndexesOk(c, by4, mapped, dormant, s)
    ensures Placed(c, by4) && s.Keys == by4.Keys && forall d :: d in by4.Values ==> d.off in by4 && by4[d.off] == d
  {
  }

  /** A dormant host is in the index under its own address only. */
  lemma OnlyUnder(by4: ByOffset, s: State, dormant: ByAddress, a: Addr6, d: DynHost)
    requires AllIndexed(by4, s, dormant, true) && a in dormant && dormant[a] == d
    ensures dormant - {a} == Without(dormant, d)
  {
    forall b | b in dormant && b != a ensures dormant[b] != d {
      assert Indexed(by4, s, b, dormant[b], true) && Indexed(by4, s, a, dormant[a], true);
    }
  }

  // ----- Maintenance -----

  /** A mapped host falls dormant. */
  lemma SleepIndexes(c: Params, by4: ByOffset, mapped: ByAddress, dormant: ByAddress, s: State, a: Addr6)
    requires IndexesOk(c, by4, mapped, dormant, s) && a in mapped
    ensures var d := mapped[a];
            d.off in s && IndexesOk(c, by4, mapped - {a}, dormant[a := d], s[d.off := s[d.off].(dormant := true)])
  {
    var d := mapped[a];
    assert Indexed(by4, s, a, d, false);
    var mapped', dormant', s' := mapped - {a}, dormant[a := d], s[d.off := s[d.off].(dormant := true)];
    assert AllFiled(by4, mapped', dormant', s') by {
      forall o | o in by4 ensures Filed(by4, mapped', dormant', s', o) {
        assert Filed(by4, mapped, dormant, s, o);
        if o != d.off && !s[o].dormant {
          assert s[o].v6 != a by { PlacedApart(c, by4, o, d); }
        }
      }
    }
    assert AllIndexed(by4, s', mapped', false) by {
      forall b | b in mapped' ensures Indexed(by4, s', b, mapped'[b], false) {
        assert Indexed(by4, s, b, mapped[b], false);
      }
    }
    assert AllIndexed(by4, s', dormant', true) by {
      forall b | b in dormant' ensures Indexed(by4, s', b, dormant'[b], true) {
        if b != a { assert Indexed(by4, s, b, dormant[b], true); }
      }
    }
    hide AllFiled, AllIndexed, Placed;
  }

  /** A dormant host leaves the pool. */
  lemma ForgetIndexes(c: Params, by4: ByOffset, mapped: ByAddress, dormant: ByAddress, s: State, a: Addr6)
    requires IndexesOk(c, by4, mapped, dormant, s) && a in dormant
    ensures var d := dormant[a]; IndexesOk(c, by4 - {d.off}, mapped, dormant - {a}, s - {d.off})
  {
    var d := dormant[a];
    assert Indexed(by4, s, a, d, true);
    var by4', dormant', s' := by4 - {d.off}, dormant - {a}, s - {d.off};
    assert AllFiled(by4', mapped, dormant', s') by {
      forall o | o in by4' ensures Filed(by4', mapped, dormant', s', o) {
        assert Filed(by4, mapped, dormant, s, o);
        if s[o].dormant { assert s[o].v6 != a by { PlacedApart(c, by4, o, d); } }
      }
    }
    assert AllIndexed(by4', s', mapped, false) by {
      forall b | b in mapped ensures Indexed(by4', s', b, mapped[b], false) {
        assert Indexed(by4, s, b, mapped[b], false);
      }
    }
    assert AllIndexed(by4', s', dormant', true) by {
      forall b | b in dormant' ensures Indexed(by4', s', b, dormant'[b], true) {
        assert Indexed(by4, s, b, dormant[b], true);
      }
    }
    assert Placed(c, by4');
    hide AllFiled, AllIndexed, Placed;
  }

  /** A line of the state file enters as a dormant host. */
  lemma EnterIndexes(c: Params, by4: ByOffset, mapped: ByAddress, dormant: ByAddress, s: State, d: DynHost, a: Addr6,
                     last: int)
    requires IndexesOk(c, by4, mapped, dormant, s) && 1 <= d.off <= Max(c) && d.v4 == c.base + d.off
    requires d.off !in by4 && a !in mapped && a !in dormant
    ensures IndexesOk(c, by4[d.off := d], mapped, dormant[a := d], s[d.off := Host(a, last, true)])
  {
    hide Max;
    var by4', dormant', s' := by4[d.off := d], dormant[a := d], s[d.off := Host(a, last, true)];
    assert AllFiled(by4', mapped, dormant', s') by {
      forall o | o in by4' ensures Filed(by4', mapped, dormant', s', o) {
        if o != d.off { assert Filed(by4, mapped, dormant, s, o); }
      }
    }
    assert AllIndexed(by4', s', mapped, false) by {
      forall b | b in mapped ensures Indexed(by4', s', b, mapped[b], false) {
        assert Indexed(by4, s, b, mapped[b], false);
      }
    }
    assert AllIndexed(by4', s', dormant', true) by {
      forall b | b in dormant' ensures Indexed(by4', s', b, dormant'[b], true) {
        if b != a { assert Indexed(by4, s, b, dormant[b], true); }
      }
    }
    assert Placed(c, by4');
    hide AllFiled, AllIndexed, Placed;
  }

  // ----- The loops of Maintain, part way -----

  /** The first loop with the hosts at `rest` still to come. */
  ghost function PartAged(s: State, now: int, minLease: int, rest: set<nat>): State {
    map off | off in s :: if off in rest then s[off] else Aged(s[off], now, minLease)
  }

  /** The second loop with the hosts at `rest` still to come. */
  ghost function PartReleased(s: State, now: int, maxLease: int, rest: set<nat>): State {
    map off | off in s && (s[off].dormant && off !in rest ==> now <= s[off].lastUse + maxLease) :: s[off]
  }

  /** Where the hosts with these addresses are. */
  ghost function OffsetsOf(s: State, addrs: set<Addr6>): set<nat> {
    set off | off in s && s[off].v6 in addrs
  }

  lemma OffsetsOfStep(c: Params, s: State, addrs: set<Addr6>, off: nat)
    requires Inv(c, s) && off in s && s[off].v6 in addrs
    ensures off in OffsetsOf(s, addrs) && OffsetsOf(s, addrs - {s[off].v6}) == OffsetsOf(s, addrs) - {off}
    ensures OffsetsOf(s, {}) == {}
  {
    hide Max;
  }

  lemma AgeingStarts(s: State, now: int, minLease: int, awake: set<Addr6>)
    requires forall off :: off in s ==> (s[off].dormant <==> s[off].v6 !in awake)
    ensures PartAged(s, now, minLease, OffsetsOf(s, awake)) == s
  {
  }

  lemma ReleaseStarts(s: State, now: int, maxLease: int, asleep: set<Addr6>)
    requires forall off :: off in s && s[off].dormant ==> s[off].v6 in asleep
    ensures PartReleased(s, now, maxLease, OffsetsOf(s, asleep)) == s
  {
  }

  lemma SameState(s: State, t: State)
    requires s.Keys == t.Keys && forall off :: off in s ==> s[off] == t[off]
    ensures s == t
  {
  }

  lemma PartAgedAt(s: State, now: int, minLease: int, rest: set<nat>)
    ensures var t := PartAged(s, now, minLease, rest);
            t.Keys == s.Keys && forall off :: off in s ==>
                                    t[off] == if off in rest then s[off] else Aged(s[off], now, minLease)
  {
  }

  lemma PartReleasedAt(s: State, now: int, maxLease: int, rest: set<nat>)
    ensures var t := PartReleased(s, now, maxLease, rest);
            && (forall off :: off in t <==>
                    off in s && (s[off].dormant && off !in rest ==> now <= s[off].lastUse + maxLease))
            && (forall off :: off in t ==> t[off] == s[off])
  {
  }

  lemma AgeingStep(s: State, now: int, minLease: int, rest: set<nat>, off: nat)
    requires off in s && off in rest
    ensures var t := PartAged(s, now, minLease, rest);
            off in t && t[off] == s[off] && PartAged(s, now, minLease, rest - {off})
              == t[off := Aged(s[off], now, minLease)]
  {
    hide Aged, PartAged;
    PartAgedAt(s, now, minLease, rest);
    PartAgedAt(s, now, minLease, rest - {off});
    SameState(PartAged(s, now, minLease, rest - {off}),
      PartAged(s, now, minLease, rest)[off := Aged(s[off], now, minLease)]);
  }

  lemma ReleaseStep(s: State, now: int, maxLease: int, rest: set<nat>, off: nat)
    requires off in s && s[off].dormant && off in rest
    ensures var t := PartReleased(s, now, maxLease, rest);
            off in t && t[off] == s[off] &&
            PartReleased(s, now, maxLease, rest - {off}) == if s[off].lastUse + maxLease < now then t - {off} else t
  {
    hide PartReleased;
    PartReleasedAt(s, now, maxLease, rest);
    PartReleasedAt(s, now, maxLease, rest - {off});
    var t := PartReleased(s, now, maxLease, rest);
    SameState(PartReleased(s, now, maxLease, rest - {off}), if s[off].lastUse + maxLease < now then t - {off} else t);
  }

  lemma MaintainedInTwo(s: State, now: int, minLease: int, maxLease: int)
    ensures PartReleased(PartAged(s, now, minLease, {}), now, maxLease, {}) == Maintained(s, now, minLease, maxLease)
  {
  }

  /** The mapped index holds exactly the addresses of the hosts that are awake. */
  lemma AwakeAreMapped(c: Params, by4: ByOffset, mapped: ByAddress, dormant: ByAddress, s: State)
    requires IndexesOk(c, by4, mapped, dormant, s)
    ensures forall off :: off in s ==>
                (s[off].dormant <==> s[off].v6 !in mapped) && (s[off].dormant <==> s[off].v6 in dormant)
  {
    hide Placed;
    forall off | off in s
      ensures (s[off].dormant <==> s[off].v6 !in mapped)
              && (s[off].dormant <==> s[off].v6 in dormant)
    {
      assert Filed(by4, mapped, dormant, s, off);
    }
  }

  lemma DormantIn(c: Params, by4: ByOffset, mapped: ByAddress, dormant: ByAddress, s: State, a: Addr6)
    requires IndexesOk(c, by4, mapped, dormant, s) && a in dormant
    ensures var d := dormant[a];
            1 <= d.off <= Max(c) && d in by4.Values && d.off in by4 && by4[d.off] == d && d.off in s && s[d.off].v6 == a
              && s[d.off].dormant
  {
    assert Indexed(by4, s, a, dormant[a], true);
  }

  lemma AgedHost(s: State, now: int, lease: int, rest: set<nat>, off: nat)
    requires off in PartAged(s, now, lease, rest)
    ensures off in s && PartAged(s, now, lease, rest)[off].v6 == s[off].v6
  {
  }

  lemma ReleasedHost(s: State, now: int, lease: int, rest: set<nat>, off: nat)
    requires off in PartReleased(s, now, lease, rest)
    ensures off in s && s[off] == PartReleased(s, now, lease, rest)[off]
  {
  }

  // ----- The loops of read, part way -----

  /** The second loop with the hosts at `done` settled. */
  ghost function PartSettled(s: State, future: bool, now: int, minLease: int, done: set<nat>): State {
    map off | off in s :: if off in done then SettledHost(s[off], future, now, minLease) else s[off]
  }

  lemma PartSettledAt(s: State, future: bool, now: int, minLease: int, done: set<nat>)
    ensures var t := PartSettled(s, future, now, minLease, done);
            t.Keys == s.Keys && forall off :: off in s ==>
                                    t[off] == if off in done then SettledHost(s[off], future, now, minLease) else s[off]
  {
  }

  lemma SettleStep(s: State, future: bool, now: int, minLease: int, done: set<nat>, off: nat)
    requires off in s && off !in done
    ensures var t := PartSettled(s, future, now, minLease, done);
            off in t && t[off] == s[off]
            && PartSettled(s, future, now, minLease, done + {off})
               == t[off := SettledHost(s[off], future, now, minLease)]
  {
    hide PartSettled, SettledHost;
    PartSettledAt(s, future, now, minLease, done);
    PartSettledAt(s, future, now, minLease, done + {off});
    SameState(PartSettled(s, future, now, minLease, done + {off}),
              PartSettled(s, future, now, minLease, done)[off := SettledHost(s[off], future, now, minLease)]);
  }

  lemma SettleStarts(s: State, future: bool, now: int, minLease: int)
    ensures PartSettled(s, future, now, minLease, {}) == s
  {
  }

  lemma SettleEnds(before: State, after: State, now: int, minLease: int)
    ensures PartSettled(after, FromFuture(before, after, now), now, minLease, after.Keys - before.Keys)
            == Settled(before, after, now, minLease)
  {
    hide FromFuture, SettledHost;
  }

  /** The prefix test of read: the high part agrees, and the offset is the low part. */
  lemma InPrefix(c: Params, v4: nat)
    requires ValidParams(c)
    ensures Shr(v4, HostBits(c)) == Shr(c.base, HostBits(c)) <==> c.base <= v4 < c.base + Size(c)
    ensures c.base <= v4 < c.base + Size(c) ==> Low(v4, HostBits(c)) == v4 - c.base
  {
    hide Low, Shr, Pow2;
    var k := HostBits(c);
    if Shr(v4, k) == Shr(c.base, k) {
      SameHigh(v4, c.base, k);
      LowBound(v4, k);
    }
    if c.base <= v4 < c.base + Size(c) { JoinParts(c.base, v4 - c.base, k); }
  }

  lemma AddLinesStep(c: Params, s: State, reserved: nat -> bool, lines: seq<Line>, k: nat)
    requires k < |lines|
    ensures AddLines(c, s, reserved, lines[k..]) ==
            AddLines(c, if Accepts(c, s, reserved, lines[k])
              then s[lines[k].v4 - c.base := Host(lines[k].v6, lines[k].last, true)] else s,
                     reserved, lines[k + 1..])
  {
    hide Accepts;
    assert lines[k..][0] == lines[k] && lines[k..][1..] == lines[k + 1..];
  }

  lemma AddLinesDone(c: Params, s: State, reserved: nat -> bool, lines: seq<Line>)
    ensures AddLines(c, s, reserved, lines[|lines|..]) == s
  {
  }

  // ----- write -----

  ghost predicate Ascending(offs: seq<nat>) {
    forall i, j :: 0 <= i < j < |offs| ==> offs[i] < offs[j]
  }

  /** The lines for the hosts at the given offsets. */
  function LinesOf(c: Params, s: State, offs: seq<nat>): seq<Line>
    requires ValidParams(c) && forall i :: 0 <= i < |offs| ==> offs[i] in s && offs[i] < Size(c)
  {
    seq(|offs|, i requires 0 <= i < |offs| => Line(c.base + offs[i], s[offs[i]].v6, s[offs[i]].lastUse))
  }

  lemma LinesOfHead(c: Params, s: State, offs: seq<nat>)
    requires ValidParams(c) && |offs| > 0 && forall i :: 0 <= i < |offs| ==> offs[i] in s && offs[i] < Size(c)
    ensures forall i :: 0 <= i < |offs[1..]| ==> offs[1..][i] in s && offs[1..][i] < Size(c)
    ensures LinesOf(c, s, offs) == [Line(c.base + offs[0], s[offs[0]].v6, s[offs[0]].lastUse)]
            + LinesOf(c, s, offs[1..])
  {
    hide Size;
    forall i | 0 <= i < |offs[1..]| ensures offs[1..][i] in s && offs[1..][i] < Size(c) {
      assert offs[1..][i] == offs[i + 1];
    }
  }

  lemma AscendingHead(s: State, offs: seq<nat>, from: nat)
    requires Ascending(offs) && from in offs && forall i :: 0 <= i < |offs| ==> from <= offs[i]
    ensures offs[0] == from && Ascending(offs[1..]) && forall i :: 0 <= i < |offs[1..]| ==> from + 1 <= offs[1..][i]
    ensures forall off :: off in offs && off != from ==> off in offs[1..]
  {
    var i :| 0 <= i < |offs| && offs[i] == from;
    forall j | 0 <= j < |offs[1..]| ensures from + 1 <= offs[1..][j] { assert offs[0] < offs[j + 1]; }
    forall off | off in offs && off != from ensures off in offs[1..] {
      var j :| 0 <= j < |offs| && offs[j] == off;
      assert offs[1..][j - 1] == off;
    }
  }

  /** Listing all offsets in ascending order gives the saved lines. */
  lemma {:induction false} AscendingIsSaved(c: Params, s: State, offs: seq<nat>, from: nat)
    requires ValidParams(c) && from <= Size(c) && Ascending(offs)
    requires forall i :: 0 <= i < |offs| ==> offs[i] in s && from <= offs[i] < Size(c)
    requires forall off :: off in s && from <= off < Size(c) ==> off in offs
    ensures LinesOf(c, s, offs) == SavedFrom(c, s, from)
    decreases Size(c) - from
  {
    hide Size, LinesOf, Ascending;
    if from == Size(c) {
      assert offs == [];
      NoLines(c, s, offs);
    } else if from in s {
      AscendingHead(s, offs, from);
      LinesOfHead(c, s, offs);
      AscendingIsSaved(c, s, offs[1..], from + 1);
    } else {
      AscendingIsSaved(c, s, offs, from + 1);
      assert SavedFrom(c, s, from) == [] + SavedFrom(c, s, from + 1);
    }
  }

  lemma NoLines(c: Params, s: State, offs: seq<nat>)
    requires ValidParams(c) && offs == []
    ensures LinesOf(c, s, offs) == []
  {
  }

  lemma MarkedIs(words: seq<U64>, offs: set<nat>, off: nat)
    requires BitmapOk(words, offs) && off < 64 * |words|
    ensures Marked(words, off) <==> off == 0 || off in offs
  {
  }

  // ----- The hosts that read loads -----

  /** The loaded hosts are those at the offsets that were not there before, each once. */
  ghost predicate LoadedAre(loaded: seq<DynHost>, before: ByOffset, after: ByOffset) {
    && before.Keys <= after.Keys
    && (forall i :: 0 <= i < |loaded| ==>
            loaded[i].off in after && after[loaded[i].off] == loaded[i] && loaded[i].off !in before)
    && (forall i, j :: 0 <= i < j < |loaded| ==> loaded[i].off != loaded[j].off)
    && (forall off :: off in after && off !in before ==> after[off].off == off && after[off] in loaded)
  }

  ghost function OffsetsIn(hosts: seq<DynHost>): set<nat> {
    set d | d in hosts :: d.off
  }

  lemma NoOffsets(hosts: seq<DynHost>)
    ensures OffsetsIn(hosts[..0]) == {}
  {
  }

  lemma NoneLoaded(by4: ByOffset, s: State, now: int)
    ensures LoadedAre([], by4, by4) && !FromFuture(s, s, now)
  {
  }

  lemma OneMoreLoaded(loaded: seq<DynHost>, before: ByOffset, after: ByOffset, d: DynHost)
    requires LoadedAre(loaded, before, after) && d.off !in after
    ensures LoadedAre(loaded + [d], before, after[d.off := d])
  {
    var loaded', after' := loaded + [d], after[d.off := d];
    assert loaded'[|loaded|] == d;
    forall off | off in after' && off !in before ensures after'[off].off == off && after'[off] in loaded' {
      if off != d.off { assert after[off] in loaded; }
    }
  }

  lemma OneMoreFuture(s: State, t: State, now: int, off: nat, h: Host)
    requires off !in t && s.Keys <= t.Keys
    ensures FromFuture(s, t[off := h], now) <==> FromFuture(s, t, now) || h.lastUse > now
  {
    var t' := t[off := h];
    if FromFuture(s, t, now) {
      var o :| o in t && o !in s && t[o].lastUse > now;
      assert o in t' && t'[o] == t[o];
    }
    if h.lastUse > now { assert off in t' && off !in s; }
  }

  lemma LoadedNext(loaded: seq<DynHost>, before: ByOffset, after: ByOffset, i: nat)
    requires LoadedAre(loaded, before, after) && i < |loaded|
    ensures loaded[i] in after.Values && loaded[i].off in after && after[loaded[i].off] == loaded[i]
            && loaded[i].off !in before
    ensures loaded[i].off !in OffsetsIn(loaded[..i])
    ensures OffsetsIn(loaded[..i + 1]) == OffsetsIn(loaded[..i]) + {loaded[i].off}
  {
    assert loaded[..i + 1] == loaded[..i] + [loaded[i]];
  }

  lemma {:induction false} DistinctCount(hosts: seq<DynHost>)
    requires forall i, j :: 0 <= i < j < |hosts| ==> hosts[i].off != hosts[j].off
    ensures |OffsetsIn(hosts)| == |hosts|
    decreases |hosts|
  {
    if hosts == [] {
      assert OffsetsIn(hosts) == {};
    } else {
      var n := |hosts| - 1;
      DistinctCount(hosts[..n]);
      assert hosts == hosts[..n] + [hosts[n]];
      assert OffsetsIn(hosts) == OffsetsIn(hosts[..n]) + {hosts[n].off};
    }
  }

  lemma LoadedOffsets(loaded: seq<DynHost>, before: ByOffset, after: ByOffset)
    requires LoadedAre(loaded, before, after)
    ensures OffsetsIn(loaded) == after.Keys - before.Keys && |loaded| == |after.Keys - before.Keys|
  {
    DistinctCount(loaded);
    forall off | off in after.Keys - before.Keys ensures off in OffsetsIn(loaded) { assert after[off] in loaded; }
    assert OffsetsIn(loaded) == after.Keys - before.Keys;
  }

  /** New hosts enter dormant. */
  lemma {:induction false} AddLinesDormant(c: Params, s: State, reserved: nat -> bool, lines: seq<Line>, off: nat)
    requires off !in s && off in AddLines(c, s, reserved, lines)
    ensures AddLines(c, s, reserved, lines)[off].dormant
    decreases |lines|
  {
    if lines != [] {
      hide Accepts;
      var l := lines[0];
      var s1 := if Accepts(c, s, reserved, l) then s[l.v4 - c.base := Host(l.v6, l.last, true)] else s;
      if off in s1 {
        AddLinesKeeps(c, s1, reserved, lines[1..], off);
      } else {
        AddLinesDormant(c, s1, reserved, lines[1..], off);
      }
    }
  }

  lemma {:induction false} AddLinesKeeps(c: Params, s: State, reserved: nat -> bool, lines: seq<Line>, off: nat)
    requires off in s
    ensures off in AddLines(c, s, reserved, lines) && AddLines(c, s, reserved, lines)[off] == s[off]
    decreases |lines|
  {
    if lines != [] {
      var l := lines[0];
      AddLinesKeeps(c, if Accepts(c, s, reserved, l) then s[l.v4 - c.base := Host(l.v6, l.last, true)] else s, reserved,
        lines[1..], off);
    }
  }

  lemma NotBoth(c: Params, by4: ByOffset, mapped: ByAddress, dormant: ByAddress, s: State, a: Addr6)
    requires IndexesOk(c, by4, mapped, dormant, s) && a in dormant
    ensures a !in mapped
  {
  }

  // ----- write's sorted list of hosts -----

  ghost predicate SortedHosts(hosts: seq<DynHost>) {
    forall i, j :: 0 <= i < j < |hosts| ==> hosts[i].off < hosts[j].off
  }

  lemma InsertKeepsSorted(hosts: seq<DynHost>, d: DynHost, p: nat)
    requires SortedHosts(hosts) && p <= |hosts|
    requires (forall k :: 0 <= k < p ==> hosts[k].off < d.off)
             && (forall k :: p <= k < |hosts| ==> d.off < hosts[k].off)
    ensures SortedHosts(hosts[..p] + [d] + hosts[p..])
  {
    var r := hosts[..p] + [d] + hosts[p..];
    forall i, j | 0 <= i < j < |r| ensures r[i].off < r[j].off {
      assert r[i] == if i < p then hosts[i] else if i == p then d else hosts[i - 1];
      assert r[j] == if j < p then hosts[j] else if j == p then d else hosts[j - 1];
    }
  }

  ghost function OffsetSeq(hosts: seq<DynHost>): seq<nat> {
    seq(|hosts|, i requires 0 <= i < |hosts| => hosts[i].off)
  }

  lemma SortedIsSaved(c: Params, by4: ByOffset, s: State, hosts: seq<DynHost>)
    requires ValidParams(c) && Placed(c, by4) && s.Keys == by4.Keys && SortedHosts(hosts)
    requires forall h :: h in hosts <==> h in by4.Values
    ensures forall i :: 0 <= i < |hosts| ==> hosts[i].off in s && by4[hosts[i].off] == hosts[i]
    ensures |Saved(c, s)| == |hosts|
    ensures forall i :: 0 <= i < |hosts| ==>
                Saved(c, s)[i] == Line(hosts[i].v4, s[hosts[i].off].v6, s[hosts[i].off].lastUse)
  {
    hide SavedFrom, ValidParams, Size;
    var offs := OffsetSeq(hosts);
    forall i | 0 <= i < |hosts|
      ensures hosts[i].off in s && by4[hosts[i].off] == hosts[i] && hosts[i].off <= Max(c)
              && hosts[i].v4 == c.base + hosts[i].off
    {
      assert hosts[i] in hosts;
      var off :| off in by4 && by4[off] == hosts[i];
    }
    assert forall off :: off in s ==> off in offs by {
      forall off | off in s ensures off in offs {
        assert by4[off] in hosts;
        var i :| 0 <= i < |hosts| && hosts[i] == by4[off];
        assert offs[i] == off;
      }
    }
    AscendingIsSaved(c, s, offs, 0);
  }

  // ----- Counting -----

  ghost function MarkedBelow(words: seq<U64>, n: nat): set<nat>
    requires n <= |words|
  {
    set off | 0 <= off < 64 * n && Marked(words, off)
  }

  ghost function Shifted(s: set<nat>, k: nat): set<nat> {
    set i | i in s :: k + i
  }

  lemma NoneMarked(words: seq<U64>)
    ensures MarkedBelow(words, 0) == {}
  {
  }

  lemma ShiftedIn(s: set<nat>, k: nat, y: nat)
    ensures y in Shifted(s, k) <==> y >= k && y - k in s
  {
    if y >= k && y - k in s { assert y == k + (y - k); }
  }

  lemma ShiftedStep(s: set<nat>, k: nat, x: nat)
    requires x in s
    ensures Shifted(s, k) == Shifted(s - {x}, k) + {k + x} && k + x !in Shifted(s - {x}, k)
  {
    ShiftedIn(s - {x}, k, k + x);
    forall y ensures y in Shifted(s, k) <==> y in Shifted(s - {x}, k) + {k + x} {
      ShiftedIn(s, k, y);
      ShiftedIn(s - {x}, k, y);
    }
  }

  lemma {:induction false} ShiftedCard(s: set<nat>, k: nat)
    ensures |Shifted(s, k)| == |s|
    decreases |s|
  {
    if s != {} {
      var x :| x in s;
      ShiftedCard(s - {x}, k);
      ShiftedStep(s, k, x);
    } else {
      assert Shifted(s, k) == {};
    }
  }

  lemma MarkedNextWord(words: seq<U64>, n: nat)
    requires n < |words|
    ensures |MarkedBelow(words, n + 1)| == |MarkedBelow(words, n)| + PopCount(words[n])
  {
    hide And, Pow2, TestBit, PopCount;
    var bits := BitsBelow(words[n], 64);
    var upper := Shifted(bits, 64 * n);
    forall off: nat ensures off in upper <==> 64 * n <= off < 64 * n + 64 && Marked(words, off) {
      ShiftedIn(bits, 64 * n, off);
      if 64 * n <= off < 64 * n + 64 { AndMask(words[n], off - 64 * n); }
    }
    assert MarkedBelow(words, n + 1) == MarkedBelow(words, n) + upper;
    assert MarkedBelow(words, n) !! upper;
    ShiftedCard(bits, 64 * n);
    Pow2Values();
    PopCountIsCard(words[n], 64);
  }

  lemma {:induction false} AddressesCount(c: Params, s: State, offs: set<nat>)
    requires Inv(c, s) && offs <= s.Keys
    ensures |set off | off in offs :: s[off].v6| == |offs|
    decreases |offs|
  {
    hide Max;
    var addrs := set off | off in offs :: s[off].v6;
    if offs != {} {
      var x :| x in offs;
      AddressesCount(c, s, offs - {x});
      var fewer := set off | off in offs - {x} :: s[off].v6;
      assert addrs == fewer + {s[x].v6};
      assert s[x].v6 !in fewer;
    } else {
      assert addrs == {};
    }
  }

  lemma AddressesAre(c: Params, by4: ByOffset, mapped: ByAddress, dormant: ByAddress, s: State)
    requires IndexesOk(c, by4, mapped, dormant, s)
    ensures (set off | off in by4.Keys :: s[off].v6) == mapped.Keys + dormant.Keys
  {
    AwakeAreMapped(c, by4, mapped, dormant, s);
    forall a | a in mapped ensures a in set off | off in by4.Keys :: s[off].v6 {
      MappedIn(c, by4, mapped, dormant, s, a);
    }
    forall a | a in dormant ensures a in set off | off in by4.Keys :: s[off].v6 {
      DormantIn(c, by4, mapped, dormant, s, a);
    }
    hide IndexesOk;
  }

  /** Offsets and IPv6 addresses are in bijection: as many hosts as entries in the two other indexes. */
  lemma IndexSizes(c: Params, by4: ByOffset, mapped: ByAddress, dormant: ByAddress, s: State)
    requires IndexesOk(c, by4, mapped, dormant, s)
    ensures |by4.Keys| == |mapped.Keys| + |dormant.Keys| <= Max(c)
  {
    assert mapped.Keys !! dormant.Keys;
    hide IndexesOk, Max, Inv;
    assert Inv(c, s) by { IndexesAgree(c, by4, mapped, dormant, s); }
    IndexesPlaced(c, by4, mapped, dormant, s);
    AddressesCount(c, s, by4.Keys);
    AddressesAre(c, by4, mapped, dormant, s);
    OffsetsAtMost(by4.Keys, Max(c));
  }

  /** The marked offsets of a whole bitmap. */
  lemma MarkedAll(words: seq<U64>, offs: set<nat>)
    requires BitmapOk(words, offs) && |words| > 0 && forall off :: off in offs ==> 1 <= off < 64 * |words|
    ensures |MarkedBelow(words, |words|)| == |offs| + 1
  {
    hide Marked;
    assert MarkedBelow(words, |words|) == offs + {0};
  }

  lemma {:induction false} OffsetsAtMost(offs: set<nat>, max: nat)
    requires forall off :: off in offs ==> 1 <= off <= max
    ensures |offs| <= max
    decreases max
  {
    if max == 0 {
      assert offs == {};
    } else {
      OffsetsAtMost(offs - {max}, max - 1);
    }
  }
}
