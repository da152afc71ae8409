/** The dynamic pool as it runs. */
module DynamicPool {
  import opened Bytes
  import opened NetUtil
  import opened Bits
  import opened PoolSpec
  import opened PoolIndex

  const SECOND := 1_000_000_000
  const DEFAULT_MIN_LEASE := 7440 * SECOND
  const DEFAULT_MAX_LEASE := 14 * 24 * 3600 * SECOND

  class Pool {
    const c: Params
    const used: array<U64>
    var minLease: int
    var maxLease: int
    var reserved: nat -> bool
    var by4: ByOffset
    var mapped: ByAddress
    var dormant: ByAddress
    var dirty: bool

    /** The pool as a state of the state machine. */
    ghost function Model(): State
      reads this, by4.Values
    {
      map off | off in by4 :: by4[off].Value()
    }

    lemma ModelIs(s: State)
      requires s.Keys == by4.Keys && forall off :: off in by4 ==> by4[off].Value() == s[off]
      ensures Model() == s
    {
    }

    ghost predicate Shape() {
      ValidParams(c) && used.Length == (Size(c) + 63) / 64
    }

    ghost predicate Valid()
      reads this, used, by4.Values
    {
      Shape() && BitmapOk(used[..], by4.Keys) && IndexesOk(c, by4, mapped, dormant, Model())
    }

    // ----- Construction -----

    constructor (c: Params, minLease: int, maxLease: int)
      requires ValidParams(c)
      ensures Valid() && fresh(used) && Model() == map[]
      ensures this.c == c && by4 == map[] && !dirty
      ensures this.minLease == (if minLease <= 0 then DEFAULT_MIN_LEASE else minLease)
      ensures this.maxLease == (if maxLease <= 0 then DEFAULT_MAX_LEASE else maxLease)
    {
      this.c := c;
      this.minLease := if minLease <= 0 then DEFAULT_MIN_LEASE else minLease;
      this.maxLease := if maxLease <= 0 then DEFAULT_MAX_LEASE else maxLease;
      reserved := _ => false;
      by4, mapped, dormant, dirty := map[], map[], map[], false;
      var words := new U64[(Size(c) + 63) / 64](_ => 0);
      words[0] := Or(words[0], 1);
      used := words;
      new;
      forall off | 0 <= off < 64 * used.Length ensures Marked(used[..], off) <==> off == 0 {
        AndMask(used[off / 64], off % 64);
        ZeroBits(off % 64);
        OneBits(off % 64);
      }
    }

    static lemma OneBits(i: nat)
      ensures Or(0, 1) == 1 && (TestBit(1, i) <==> i == 0)
    {
      Pow2Bits(0, i);
      assert Pow2(0) == 1;
    }

    // ----- The bitmap -----

    lemma OffsetFits(off: nat)
      requires Shape() && off <= Max(c)
      ensures off < 64 * used.Length
    {
    }

    /** isUsed: the network address and the offsets of the hosts. */
    method IsUsed(off: nat) returns (b: bool)
      requires Valid() && off <= Max(c)
      ensures b <==> off == 0 || off in by4
    {
      hide IndexesOk;
      OffsetFits(off);
      MarkedIs(used[..], by4.Keys, off);
      b := And(used[off / 64], Pow2(off % 64)) != 0;
    }

    method SetUsed(off: nat, ghost offs: set<nat>)
      requires off < 64 * used.Length && BitmapOk(used[..], offs)
      modifies used
      ensures BitmapOk(used[..], offs + {off})
    {
      hide Marked;
      ghost var was := used[..];
      SetMarks(was, off, off);
      used[off / 64] := Or(used[off / 64], Pow2(off % 64));
      assert used[..] == was[off / 64 := Or(was[off / 64], Pow2(off % 64))];
      forall o | 0 <= o < 64 * used.Length ensures Marked(used[..], o) <==> o == 0 || o in offs + {off} {
        SetMarks(was, off, o);
      }
    }

    method ClearUsed(off: nat, ghost offs: set<nat>)
      requires 0 < off < 64 * used.Length && BitmapOk(used[..], offs)
      modifies used
      ensures BitmapOk(used[..], offs - {off})
    {
      hide Marked;
      ghost var was := used[..];
      ClearUnmarks(was, off, off);
      used[off / 64] := AndNot(used[off / 64], Pow2(off % 64));
      assert used[..] == was[off / 64 := AndNot(was[off / 64], Pow2(off % 64))];
      forall o | 0 <= o < 64 * used.Length ensures Marked(used[..], o) <==> o == 0 || o in offs - {off} {
        ClearUnmarks(was, off, o);
      }
    }

    // ----- Lookups -----

    ghost function Hosts(): set<DynHost>
      reads this
    {
      by4.Values
    }

    /** The store a lookup makes after it has released the lock, to a host that may have left the pool meanwhile. */
    method Touch(d: DynHost, now: int)
      requires Valid()
      modifies d`lastUse
      ensures Valid()
      ensures Model() == if d in Hosts() then Touched(old(Model()), d.off, now) else old(Model())
    {
      hide Shape, BitmapOk, IndexesOk;
      IndexesPlaced(c, by4, mapped, dormant, Model());
      d.lastUse := now;
      if d in Hosts() {
        assert Model() == Touched(old(Model()), d.off, now);
        TouchedIndexes(c, by4, mapped, dormant, old(Model()), d.off, now);
      } else {
        assert Model() == old(Model());
      }
    }

    /** lookup4: the host mapped at a pool address. */
    method Lookup4(a: U32, now: int) returns (r: Option<Addr6>)
      requires Valid()
      modifies Hosts()
      ensures Valid() && unchanged(this) && unchanged(used)
      ensures var s, off := old(Model()), Low(a, HostBits(c));
              if off in s && !s[off].dormant
              then r == Some(s[off].v6) && Model() == Touched(s, off, now)
              else r == None && Model() == s
    {
      hide Shape, BitmapOk, IndexesOk;
      var off := Low(a, HostBits(c));
      IndexesPlaced(c, by4, mapped, dormant, Model());
      if off in by4 && !by4[off].dormant {
        Touch(by4[off], now);
        r := Some(by4[off].v6);
      } else {
        r := None;
      }
    }

    // ----- assign -----

    /** activate: moves d to the mapped set. */
    method Activate(d: DynHost, now: int)
      modifies this`mapped, this`dormant, d
      ensures dormant == old(dormant) - {d.v6} && mapped == old(mapped)[d.v6 := d]
      ensures d.v6 == old(d.v6) && !d.dormant && d.lastUse == now
    {
      dormant := dormant - {d.v6};
      d.dormant := false;
      d.lastUse := now;
      mapped := mapped[d.v6 := d];
    }

    /** The host of a dormant address comes back. */
    method Reactivate(a: Addr6, now: int) returns (d: DynHost)
      requires Valid() && a in dormant
      modifies this`mapped, this`dormant, Hosts()
      ensures Valid() && by4 == old(by4)
      ensures d.off in old(Model()) && old(Model())[d.off].v6 == a && d.v4 == c.base + d.off
      ensures Model() == old(Model())[d.off := Host(a, now, false)]
    {
      hide Shape, BitmapOk, Max;
      ghost var s := Model();
      d := dormant[a];
      assert Indexed(by4, s, a, d, true);
      Activate(d, now);
      assert dormant == Without(old(dormant), d) by { OnlyUnder(by4, s, old(dormant), a, d); }
      TakenIndexes(c, by4, old(mapped), old(dormant), s, d, a, now);
      assert by4 == by4[d.off := d];
      assert Model() == s[d.off := Host(a, now, false)];
    }

    /** A fresh assignment at a free offset. */
    method Allocate(a: Addr6, off: nat, v4: U32, now: int)
      requires Valid() && 1 <= off <= Max(c) && off !in by4 && v4 == c.base + off && a !in mapped && a !in dormant
      modifies this`by4, this`mapped, this`dormant, this`dirty, used
      ensures Valid() && fresh(Hosts() - old(Hosts())) && dirty
      ensures Model() == old(Model())[off := Host(a, now, false)]
    {
      hide BitmapOk, Max, ValidParams, IndexesOk, Size;
      ghost var s := Model();
      var d := new DynHost(v4, a, off, 0, false);
      assert off < 64 * used.Length by { OffsetFits(off); }
      SetUsed(off, by4.Keys);
      by4 := by4[off := d];
      assert by4.Keys == old(by4.Keys) + {off};
      Activate(d, now);
      dirty := true;
      NotYet(c, old(by4), old(mapped), old(dormant), s, d);
      assert dormant == Without(old(dormant), d);
      TakenIndexes(c, old(by4), old(mapped), old(dormant), s, d, a, now);
      forall o | o in by4 ensures by4[o].Value() == s[off := Host(a, now, false)][o] {}
      ModelIs(s[off := Host(a, now, false)]);
    }

    /** The dormant host idle longest, or null when none is dormant. */
    method FindOldest() returns (oldest: DynHost?)
      requires Valid()
      ensures oldest == null <==> NoneDormant(Model())
      ensures oldest != null ==>
                oldest in Hosts() && Indexed(by4, Model(), oldest.v6, oldest, true) && Oldest(Model(), oldest.off)
    {
      hide Shape, BitmapOk, Max;
      ghost var s := Model();
      oldest := null;
      var todo := dormant.Keys;
      while todo != {}
        invariant todo <= dormant.Keys
        invariant oldest == null <==> todo == dormant.Keys
        invariant oldest != null ==> oldest.v6 in dormant && dormant[oldest.v6] == oldest
        invariant oldest != null ==> forall b :: b in dormant && b !in todo ==> oldest.lastUse <= dormant[b].lastUse
        decreases |todo|
      {
        var b :| b in todo;
        var d := dormant[b];
        assert Indexed(by4, s, b, d, true);
        if oldest == null || d.lastUse < oldest.lastUse {
          oldest := d;
        }
        todo := todo - {b};
      }
      forall off | off in s && s[off].dormant ensures s[off].v6 in dormant && dormant[s[off].v6] == by4[off] {
        assert Filed(by4, mapped, dormant, s, off);
      }
      if oldest != null {
        assert Indexed(by4, s, oldest.v6, oldest, true);
      } else {
        assert dormant.Keys == {};
      }
    }

    /** The host d gives its address to a. */
    method Steal(d: DynHost, a: Addr6, now: int)
      requires Valid() && d in Hosts() && Indexed(by4, Model(), d.v6, d, true) && a !in mapped && a !in dormant
      modifies this`mapped, this`dormant, this`dirty, d
      ensures Valid() && dirty
      ensures Model() == old(Model())[d.off := Host(a, now, false)]
    {
      hide Shape, BitmapOk, Max, IndexesOk;
      ghost var s := Model();
      DormantFiled(c, by4, mapped, dormant, s, d.v6, d);
      dormant := dormant - {d.v6};
      d.v6 := a;
      Activate(d, now);
      dirty := true;
      assert dormant == old(dormant) - {s[d.off].v6};
      TakenIndexes(c, by4, old(mapped), old(dormant), s, d, a, now);
      assert by4 == by4[d.off := d];
      forall o | o in by4 && o != d.off ensures by4[o].Value() == s[o] {
        IndexesPlaced(c, by4, old(mapped), old(dormant), s);
      }
      assert Model() == s[d.off := Host(a, now, false)];
    }

    /** The starting offset: the four words of the address, each folded into the host part. */
    method StartingOffset(a: Addr6) returns (h: nat)
      requires ValidParams(c)
      ensures h == Hash(c, a) && h <= Max(c)
    {
      hide HashFrom, Size, ValidParams, Get32;
      h := 0;
      var i := 0;
      while i < 16
        invariant 0 <= i <= 16 && i % 4 == 0 && h <= Max(c)
        invariant HashFrom(c, a, i, h) == Hash(c, a)
      {
        HashStep(c, a, i, h);
        h := FoldDown((h + Get32(a, i)) % 0x1_0000_0000);
        i := i + 4;
      }
      HashDone(c, a, h);
    }

    /** The inner loop: it ends, because every round makes h smaller, with nothing above the host part. */
    method FoldDown(h0: nat) returns (h: nat)
      requires ValidParams(c)
      ensures h == FoldHash(c, h0) && h <= Max(c)
    {
      hide AndNot, Low, Shr, Pow2;
      h := h0;
      MaskedHigh(h, HostBits(c));
      while AndNot(h, Max(c)) != 0
        invariant FoldHash(c, h) == FoldHash(c, h0)
        invariant AndNot(h, Max(c)) == 0 <==> h <= Max(c)
        decreases h
      {
        FoldShrinks(h, HostBits(c));
        h := Low(h, HostBits(c)) + Shr(h, HostBits(c));
        MaskedHigh(h, HostBits(c));
      }
    }

    /** The circular probe for a free offset. */
    method FindFree(h: nat) returns (r: Option<nat>)
      requires Valid() && h <= Max(c)
      ensures r == Probe(c, Model(), reserved, h, 0)
    {
      hide Probe, IndexesOk, Low, Pow2;
      var i := 0;
      while i <= Max(c)
        invariant 0 <= i <= Size(c)
        invariant Probe(c, Model(), reserved, h, 0) == Probe(c, Model(), reserved, h, i)
      {
        ProbeStep(c, Model(), reserved, h, i);
        var off := Low(h + i, HostBits(c));
        assert off <= Max(c) by { LowBound(h + i, HostBits(c)); }
        assert Or(c.base, off) == c.base + off by { OrDisjoint(c.base, off, HostBits(c)); }
        var taken := IsUsed(off);
        if off != 0 && !taken && !reserved(Or(c.base, off)) {
          return Some(off);
        }
        i := i + 1;
      }
      ProbeDone(c, Model(), reserved, h);
      r := None;
    }

    /** assign for a host without an address: a free offset, or else the oldest dormant host's. */
    method AssignNew(a: Addr6, now: int) returns (r: Option<U32>)
      requires Valid() && a !in mapped && a !in dormant
      modifies this`by4, this`mapped, this`dormant, this`dirty, used, Hosts()
      ensures Valid() && fresh(Hosts() - old(Hosts()))
      ensures AssignsAddress(c, old(Model()), a, now, reserved, Model(), r)
      ensures !Known(old(Model()), a) && dirty == (old(dirty) || r.Some?)
    {
      hide Model, BitmapOk, IndexesOk, Probe, Hash, Size, Oldest, NoneDormant, Low, AssignsAddress, Known, Indexed;
      ghost var s := Model();
      assert !Known(s, a) by { IndexesAgree(c, by4, mapped, dormant, s); }
      var h := StartingOffset(a);
      var found := FindFree(h);
      if found.Some? {
        var off := found.value;
        assert 1 <= off <= Max(c) && off !in by4 by {
          FoundIsFree(c, s, reserved, h);
          IndexesPlaced(c, by4, mapped, dormant, s);
        }
        Allocate(a, off, c.base + off, now);
        FreshAssigns(c, s, a, now, reserved, off);
        return Some(c.base + off);
      }
      var oldest := FindOldest();
      if oldest == null {
        NothingAssigns(c, s, a, now, reserved);
        return None;
      }
      assert oldest.off <= Max(c) && oldest.v4 == c.base + oldest.off by {
        DormantFiled(c, by4, mapped, dormant, s, oldest.v6, oldest);
      }
      Steal(oldest, a, now);
      StolenAssigns(c, s, a, now, reserved, oldest.off);
      return Some(oldest.v4);
    }

    /** The mapped host of a is used. */
    method Renew(a: Addr6, now: int) returns (v4: U32)
      requires Valid() && a in mapped
      modifies Hosts()
      ensures Valid() && unchanged(this) && unchanged(used)
      ensures v4 >= c.base && IsMapped(old(Model()), a, v4 - c.base)
              && Model() == Touched(old(Model()), v4 - c.base, now)
    {
      hide Model, BitmapOk, IndexesOk, Max, Size, Low;
      ghost var s := Model();
      IndexesAgree(c, by4, mapped, dormant, s);
      IndexesPlaced(c, by4, mapped, dormant, s);
      MappedIn(c, by4, mapped, dormant, s, a);
      Touch(mapped[a], now);
      v4 := mapped[a].v4;
    }

    /** assign. */
    method Assign(a: Addr6, now: int) returns (r: Option<U32>)
      requires Valid()
      modifies this`by4, this`mapped, this`dormant, this`dirty, used, Hosts()
      ensures Valid() && fresh(Hosts() - old(Hosts()))
      ensures AssignsAddress(c, old(Model()), a, now, reserved, Model(), r)
      ensures dirty == (old(dirty) || (!Known(old(Model()), a) && r.Some?))
    {
      hide Model, BitmapOk, IndexesOk, Low, Size, AssignsAddress, Known, Inv;
      ghost var s := Model();
      assert Inv(c, s) by { IndexesAgree(c, by4, mapped, dormant, s); }
      if a in mapped { // another allocation came first
        var v4 := Renew(a, now);
        KnownAssigns(c, s, a, now, reserved, v4 - c.base);
        return Some(v4);
      }
      if a in dormant {
        var d := Reactivate(a, now);
        KnownAssigns(c, s, a, now, reserved, d.off);
        return Some(d.v4);
      }
      r := AssignNew(a, now);
    }

    /** lookup6: finds the mapped host of an IPv6 address or, on request, makes one. */
    method Lookup6(a: Addr6, allocate: bool, now: int) returns (r: Option<U32>)
      requires Valid()
      modifies this`by4, this`mapped, this`dormant, this`dirty, used, Hosts()
      ensures Valid() && fresh(Hosts() - old(Hosts()))
      ensures if old(a in mapped)
              then r.Some? && r.value >= c.base && IsMapped(old(Model()), a, r.value - c.base)
                   && Model() == Touched(old(Model()), r.value - c.base, now)
              else if allocate then AssignsAddress(c, old(Model()), a, now, reserved, Model(), r)
              else r == None && Model() == old(Model())
      ensures old(a in mapped) || !allocate ==> unchanged(this) && unchanged(used)
      ensures dirty == (old(dirty) || (allocate && !Known(old(Model()), a) && r.Some?))
    {
      hide Model, BitmapOk, IndexesOk, Max, Size, Low, AssignsAddress;
      if a in mapped {
        var v4 := Renew(a, now);
        return Some(v4);
      }
      if !allocate {
        return None;
      }
      r := Assign(a, now);
    }

    /** Build's assignment of the reserved hook; the hosts the pool already has are not checked against it. */
    method Reserve(hook: nat -> bool)
      requires Valid()
      modifies this`reserved
      ensures Valid() && Model() == old(Model()) && reserved == hook
    {
      hide BitmapOk, IndexesOk, Shape;
      ghost var s := Model();
      reserved := hook;
      ModelIs(s);
    }

    // ----- Maintain -----

    method SetLeases(minLease: int, maxLease: int)
      requires Valid()
      modifies this`minLease, this`maxLease
      ensures Valid() && Model() == old(Model())
      ensures this.minLease == (if minLease <= 0 then DEFAULT_MIN_LEASE else minLease)
      ensures this.maxLease == (if maxLease <= 0 then DEFAULT_MAX_LEASE else maxLease)
    {
      hide Shape, BitmapOk, IndexesOk;
      ghost var s := Model();
      this.minLease := if minLease <= 0 then DEFAULT_MIN_LEASE else minLease;
      this.maxLease := if maxLease <= 0 then DEFAULT_MAX_LEASE else maxLease;
      ModelIs(s);
    }

    /** The first loop: mapped hosts idle beyond the short lease become dormant. */
    method AgeMapped(now: int, lease: int)
      requires Valid()
      modifies this`mapped, this`dormant, Hosts()
      ensures Valid() && by4 == old(by4)
      ensures Model() == PartAged(old(Model()), now, lease, {})
    {
      hide Model, Shape, BitmapOk, IndexesOk, Inv, PartAged;
      ghost var s := Model();
      assert Inv(c, s) by { IndexesAgree(c, by4, mapped, dormant, s); }
      var todo := mapped.Keys;
      assert Model() == PartAged(s, now, lease, OffsetsOf(s, todo)) by {
        AwakeAreMapped(c, by4, mapped, dormant, s);
        AgeingStarts(s, now, lease, todo);
      }
      while todo != {}
        invariant Valid() && by4 == old(by4) && todo <= mapped.Keys
        invariant Model() == PartAged(s, now, lease, OffsetsOf(s, todo))
        decreases |todo|
      {
        var a :| a in todo;
        AgeOne(a, now, lease, s, todo);
        todo := todo - {a};
      }
      assert OffsetsOf(s, {}) == {};
    }

    method AgeOne(a: Addr6, now: int, lease: int, ghost s: State, ghost todo: set<Addr6>)
      requires Valid() && a in todo && todo <= mapped.Keys && Inv(c, s)
               && Model() == PartAged(s, now, lease, OffsetsOf(s, todo))
      modifies this`mapped, this`dormant, Hosts()
      ensures Valid() && by4 == old(by4) && todo - {a} <= mapped.Keys
      ensures Model() == PartAged(s, now, lease, OffsetsOf(s, todo - {a}))
    {
      hide Shape, BitmapOk, IndexesOk, Inv, PartAged, OffsetsOf;
      ghost var t := Model();
      var d := mapped[a];
      MappedIn(c, by4, mapped, dormant, t, a);
      AgedHost(s, now, lease, OffsetsOf(s, todo), d.off);
      OffsetsOfStep(c, s, todo, d.off);
      AgeingStep(s, now, lease, OffsetsOf(s, todo), d.off);
      if d.lastUse + lease < now {
        SleepIndexes(c, by4, mapped, dormant, t, a);
        IndexesPlaced(c, by4, mapped, dormant, t);
        mapped := mapped - {a};
        d.dormant := true;
        dormant := dormant[a := d];
        ModelIs(t[d.off := t[d.off].(dormant := true)]);
      } else {
        assert t[d.off := t[d.off]] == t;
      }
    }

    /** The second loop: dormant hosts idle beyond the long lease are released. */
    method ReleaseDormant(now: int, lease: int)
      requires Valid()
      modifies this`by4, this`dormant, this`dirty, used
      ensures Valid() && Hosts() <= old(Hosts())
      ensures Model() == PartReleased(old(Model()), now, lease, {})
      ensures Model().Keys <= old(Model()).Keys && (dirty <==> old(dirty) || Model().Keys != old(Model()).Keys)
    {
      hide Model, Shape, BitmapOk, IndexesOk, Inv, PartReleased;
      ghost var s := Model();
      assert Inv(c, s) by { IndexesAgree(c, by4, mapped, dormant, s); }
      var todo := dormant.Keys;
      assert Model() == PartReleased(s, now, lease, OffsetsOf(s, todo)) by {
        AwakeAreMapped(c, by4, mapped, dormant, s);
        ReleaseStarts(s, now, lease, todo);
      }
      while todo != {}
        invariant Valid() && Hosts() <= old(Hosts()) && todo <= dormant.Keys
        invariant Model() == PartReleased(s, now, lease, OffsetsOf(s, todo))
        invariant Model().Keys <= s.Keys && (dirty <==> old(dirty) || Model().Keys != s.Keys)
        decreases |todo|
      {
        var a :| a in todo;
        ReleaseOne(a, now, lease, s, todo);
        todo := todo - {a};
      }
      assert OffsetsOf(s, {}) == {};
    }

    method ReleaseOne(a: Addr6, now: int, lease: int, ghost s: State, ghost todo: set<Addr6>)
      requires Valid() && a in todo && todo <= dormant.Keys && Inv(c, s)
               && Model() == PartReleased(s, now, lease, OffsetsOf(s, todo))
      modifies this`by4, this`dormant, this`dirty, used
      ensures Valid() && todo - {a} <= dormant.Keys && Hosts() <= old(Hosts())
      ensures Model() == PartReleased(s, now, lease, OffsetsOf(s, todo - {a}))
      ensures (Model() == old(Model()) && dirty == old(dirty)) || (Model().Keys < old(Model()).Keys && dirty)
    {
      hide BitmapOk, IndexesOk, Inv, PartReleased, OffsetsOf, Size, ValidParams;
      ghost var t := Model();
      var d := dormant[a];
      DormantIn(c, by4, mapped, dormant, t, a);
      ReleasedHost(s, now, lease, OffsetsOf(s, todo), d.off);
      OffsetsOfStep(c, s, todo, d.off);
      ReleaseStep(s, now, lease, OffsetsOf(s, todo), d.off);
      if d.lastUse + lease < now {
        ForgetIndexes(c, by4, mapped, dormant, t, a);
        dormant := dormant - {a};
        by4 := by4 - {d.off};
        assert d.off < 64 * used.Length by { OffsetFits(d.off); }
        ClearUsed(d.off, old(by4.Keys));
        assert by4.Keys == old(by4.Keys) - {d.off};
        dirty := true;
        ModelIs(t - {d.off});
      }
    }

    /** Maintain: expires idle assignments. */
    method Maintain(now: int)
      requires Valid()
      modifies this`by4, this`mapped, this`dormant, this`dirty, used, Hosts()
      ensures Valid() && Hosts() <= old(Hosts())
      ensures Model() == Maintained(old(Model()), now, minLease / SECOND, maxLease / SECOND)
      ensures dirty == (old(dirty) || Model().Keys != old(Model()).Keys)
    {
      hide Shape, BitmapOk, IndexesOk, PartAged, PartReleased, Maintained;
      ghost var s := Model();
      AgeMapped(now, minLease / SECOND);
      ReleaseDormant(now, maxLease / SECOND);
      MaintainedInTwo(s, now, minLease / SECOND, maxLease / SECOND);
    }

    // ----- Save and load -----

    /** Whether a line of the state file is taken. */
    method AcceptsLine(l: Line) returns (ok: bool)
      requires Valid()
      ensures ok == Accepts(c, Model(), reserved, l)
      ensures ok ==>
                l.Line? && 0 < Low(l.v4, HostBits(c)) == l.v4 - c.base <= Max(c) && l.v4 - c.base !in by4
                && l.v6 !in mapped && l.v6 !in dormant
    {
      hide BitmapOk, IndexesOk, ValidIPv6, Marked, Low, Shr;
      ghost var s := Model();
      if l.Malformed? || l.last <= 0 || Shr(l.v4, HostBits(c)) != Shr(c.base, HostBits(c)) || !ValidIPv6(l.v6) {
        if l.Line? { InPrefix(c, l.v4); }
        return false;
      }
      InPrefix(c, l.v4);
      var off := Low(l.v4, HostBits(c));
      var taken := IsUsed(off);
      assert Known(s, l.v6) <==> l.v6 in dormant || l.v6 in mapped by { IndexesAgree(c, by4, mapped, dormant, s); }
      ok := off != 0 && !taken && !reserved(l.v4) && l.v6 !in dormant && l.v6 !in mapped;
    }

    /** An accepted line enters as a dormant host. */
    method EnterLine(l: Line) returns (d: DynHost)
      requires Valid() && l.Line?
      requires 0 < Low(l.v4, HostBits(c)) == l.v4 - c.base <= Max(c) && l.v4 - c.base !in by4 && l.v6 !in mapped
               && l.v6 !in dormant
      modifies this`by4, this`dormant, used
      ensures Valid() && fresh(d) && d.off == l.v4 - c.base && by4 == old(by4)[d.off := d]
      ensures Model() == old(Model())[d.off := Host(l.v6, l.last, true)]
    {
      hide BitmapOk, IndexesOk, Size, ValidParams, Marked, Low, Max;
      ghost var s := Model();
      var off := Low(l.v4, HostBits(c));
      assert off < 64 * used.Length by { OffsetFits(off); }
      d := new DynHost(l.v4, l.v6, off, l.last, true);
      SetUsed(off, by4.Keys);
      by4 := by4[off := d];
      assert by4.Keys == old(by4.Keys) + {off};
      dormant := dormant[l.v6 := d];
      EnterIndexes(c, old(by4), mapped, old(dormant), s, d, l.v6, l.last);
      forall o | o in by4 ensures by4[o].Value() == s[off := Host(l.v6, l.last, true)][o] {}
      ModelIs(s[off := Host(l.v6, l.last, true)]);
    }

    /** read's first loop. The loaded hosts are those at the offsets that were not there before. */
    method ReadLines(lines: seq<Line>, now: int) returns (loaded: seq<DynHost>, future: bool)
      requires Valid()
      modifies this`by4, this`dormant, used
      ensures Valid() && Model() == AddLines(c, old(Model()), reserved, lines)
      ensures LoadedAre(loaded, old(by4), by4) && (future <==> FromFuture(old(Model()), Model(), now))
      ensures fresh(Hosts() - old(Hosts())) && forall i :: 0 <= i < |loaded| ==> fresh(loaded[i])
    {
      hide Shape, Model, BitmapOk, IndexesOk, AddLines, Accepts, Low, LoadedAre, FromFuture;
      ghost var s := Model();
      loaded, future := [], false;
      NoneLoaded(by4, s, now);
      ModelKeys();
      assert lines[0..] == lines;
      for k := 0 to |lines|
        invariant Valid() && fresh(Hosts() - old(Hosts()))
        invariant AddLines(c, s, reserved, lines) == AddLines(c, Model(), reserved, lines[k..])
        invariant LoadedAre(loaded, old(by4), by4) && (future <==> FromFuture(s, Model(), now))
        invariant (forall i :: 0 <= i < |loaded| ==> fresh(loaded[i])) && s.Keys <= by4.Keys
      {
        ModelKeys();
        AddLinesStep(c, Model(), reserved, lines, k);
        var ok := AcceptsLine(lines[k]);
        if ok {
          ghost var before, t := by4, Model();
          var d := EnterLine(lines[k]);
          OneMoreLoaded(loaded, old(by4), before, d);
          OneMoreFuture(s, t, now, d.off, Host(lines[k].v6, lines[k].last, true));
          if lines[k].last > now {
            future := true;
          }
          loaded := loaded + [d];
        }
      }
      AddLinesDone(c, Model(), reserved, lines);
    }

    /** read's second loop, for one host. */
    method SettleOne(d: DynHost, future: bool, now: int, lease: int)
      requires Valid() && d in Hosts() && d.dormant
      modifies this`mapped, this`dormant, d
      ensures Valid()
      ensures d.off in old(Model()) && Model()
              == old(Model())[d.off := SettledHost(old(Model())[d.off], future, now, lease)]
    {
      hide Shape, BitmapOk, IndexesOk, Max;
      ghost var s := Model();
      IndexesPlaced(c, by4, mapped, dormant, s);
      if future {
        Touch(d, now - lease);
      } else if d.lastUse + lease >= now {
        ghost var a := d.v6;
        DormantFiled(c, by4, mapped, dormant, s, a, d);
        NotBoth(c, by4, mapped, dormant, s, a);
        Activate(d, d.lastUse);
        TakenIndexes(c, by4, old(mapped), old(dormant), s, d, a, d.lastUse);
        assert by4 == by4[d.off := d];
        ModelIs(s[d.off := Host(a, d.lastUse, false)]);
      } else {
        ModelIs(s[d.off := s[d.off]]);
      }
    }

    /** read's second loop. */
    method Settle(loaded: seq<DynHost>, future: bool, now: int, lease: int, ghost before: ByOffset)
      requires Valid() && LoadedAre(loaded, before, by4)
      requires forall off :: off in Model() && off !in before ==> Model()[off].dormant
      modifies this`mapped, this`dormant, loaded
      ensures Valid() && by4 == old(by4)
      ensures Model() == PartSettled(old(Model()), future, now, lease, by4.Keys - before.Keys)
    {
      hide Model, Shape, BitmapOk, IndexesOk, PartSettled, SettledHost, LoadedAre, OffsetsIn;
      ghost var t := Model();
      ModelKeys();
      SettleStarts(t, future, now, lease);
      NoOffsets(loaded);
      for i := 0 to |loaded|
        invariant Valid() && by4 == old(by4)
        invariant Model() == PartSettled(t, future, now, lease, OffsetsIn(loaded[..i]))
      {
        var d := loaded[i];
        LoadedNext(loaded, before, by4, i);
        SettleStep(t, future, now, lease, OffsetsIn(loaded[..i]), d.off);
        ModelAt(d.off);
        SettleOne(d, future, now, lease);
      }
      LoadedOffsets(loaded, before, by4);
      assert loaded[..|loaded|] == loaded;
    }

    lemma ModelKeys()
      ensures Model().Keys == by4.Keys
    {
    }

    lemma ModelAt(off: nat)
      requires off in by4
      ensures off in Model() && Model()[off] == by4[off].Value()
    {
    }

    /** read: returns the number of assignments loaded. */
    method Read(lines: seq<Line>, broken: bool, now: int) returns (count: nat)
      requires Valid()
      modifies this`by4, this`mapped, this`dormant, used
      ensures Valid() && fresh(Hosts() - old(Hosts()))
      ensures Model() == Loaded(c, old(Model()), reserved, lines, broken, now, minLease / SECOND)
      ensures count == |by4.Keys - old(by4.Keys)|
    {
      hide Model, Shape, BitmapOk, IndexesOk, AddLines, LoadedAre, FromFuture, PartSettled, Settled;
      ghost var s := Model();
      ModelKeys();
      var loaded, future := ReadLines(lines, now);
      ghost var t := Model();
      count := |loaded|;
      LoadedOffsets(loaded, old(by4), by4);
      if broken {
        return;
      }
      ModelKeys();
      forall off | off in t && off !in old(by4) ensures t[off].dormant { AddLinesDormant(c, s, reserved, lines, off); }
      Settle(loaded, future, now, minLease / SECOND, old(by4));
      SettleEnds(s, t, now, minLease / SECOND);
    }

    /** write: the assignments in the order of their offsets. */
    method Write() returns (lines: seq<Line>)
      requires Valid()
      ensures lines == Saved(c, Model())
    {
      hide BitmapOk, Saved, Size;
      ghost var s := Model();
      IndexesPlaced(c, by4, mapped, dormant, s);
      var hosts := CollectHosts();
      SortedIsSaved(c, by4, s, hosts);
      lines := [];
      for i := 0 to |hosts|
        invariant |lines| == i
        invariant forall k :: 0 <= k < i ==> lines[k] == Line(hosts[k].v4, s[hosts[k].off].v6, s[hosts[k].off].lastUse)
      {
        lines := lines + [Line(hosts[i].v4, hosts[i].v6, hosts[i].lastUse)];
      }
    }

    /** Keeps the list in the order of offsets. */
    method InsertHost(hosts: seq<DynHost>, d: DynHost) returns (r: seq<DynHost>)
      requires SortedHosts(hosts) && forall i :: 0 <= i < |hosts| ==> hosts[i].off != d.off
      ensures SortedHosts(r) && forall h :: h in r <==> h in hosts || h == d
    {
      var p := 0;
      while p < |hosts| && hosts[p].off < d.off
        invariant 0 <= p <= |hosts| && forall k :: 0 <= k < p ==> hosts[k].off < d.off
      {
        p := p + 1;
      }
      InsertKeepsSorted(hosts, d, p);
      r := hosts[..p] + [d] + hosts[p..];
      assert hosts == hosts[..p] + hosts[p..];
    }

    method CollectHosts() returns (hosts: seq<DynHost>)
      requires Valid()
      ensures SortedHosts(hosts) && forall h :: h in hosts <==> h in Hosts()
    {
      hosts := [];
      assert SortedHosts(hosts);
      hide Shape, BitmapOk, SortedHosts, Max;
      ghost var s := Model();
      hosts := CollectFrom(mapped, hosts, false);
      hosts := CollectFrom(dormant, hosts, true);
      forall h ensures h in hosts <==> h in Hosts() {
        if h in Hosts() {
          IndexesPlaced(c, by4, mapped, dormant, s);
          assert Filed(by4, mapped, dormant, s, h.off);
        }
        if h in mapped.Values { var a :| a in mapped && mapped[a] == h; MappedIn(c, by4, mapped, dormant, s, a); }
        if h in dormant.Values { var a :| a in dormant && dormant[a] == h; DormantIn(c, by4, mapped, dormant, s, a); }
      }
    }

    method CollectFrom(index: ByAddress, hosts0: seq<DynHost>, ghost asleep: bool) returns (hosts: seq<DynHost>)
      requires Valid() && index == (if asleep then dormant else mapped) && SortedHosts(hosts0)
      requires forall h :: h in hosts0 ==> h.off in by4 && by4[h.off] == h && Model()[h.off].dormant != asleep
      ensures SortedHosts(hosts) && forall h :: h in hosts <==> h in hosts0 || h in index.Values
      ensures forall h :: h in hosts && h !in hosts0 ==>
                  h.off in by4 && by4[h.off] == h && Model()[h.off].dormant == asleep
    {
      hide Shape, BitmapOk, SortedHosts, Max, Placed, AllFiled;
      ghost var s := Model();
      hosts := hosts0;
      var todo := index.Keys;
      while todo != {}
        invariant todo <= index.Keys && SortedHosts(hosts)
        invariant forall h :: h in hosts <==> h in hosts0 || exists a :: a in index && a !in todo && index[a] == h
        decreases |todo|
      {
        var a :| a in todo;
        assert Indexed(by4, s, a, index[a], asleep);
        forall i | 0 <= i < |hosts| ensures hosts[i].off != index[a].off {
          assert hosts[i] in hosts;
          if hosts[i] !in hosts0 {
            var b :| b in index && b !in todo && index[b] == hosts[i];
            assert Indexed(by4, s, b, index[b], asleep);
          }
        }
        hosts := InsertHost(hosts, index[a]);
        todo := todo - {a};
      }
      forall h | h in hosts && h !in hosts0 ensures h.off in by4 && by4[h.off] == h && s[h.off].dormant == asleep {
        var b :| b in index && b !in todo && index[b] == h;
        assert Indexed(by4, s, b, index[b], asleep);
      }
    }

    /** usedCount: the population count of the bitmap, less the network address, is the number of assignments. */
    method UsedCount() returns (n: int)
      requires Valid()
      ensures n == |mapped.Keys| + |dormant.Keys| == |by4.Keys| && 0 <= n <= Max(c)
    {
      hide Model, Marked, IndexesOk, BitmapOk, PopCount, MarkedBelow;
      NoneMarked(used[..]);
      n := 0;
      for i := 0 to used.Length
        invariant n == |MarkedBelow(used[..], i)|
      {
        MarkedNextWord(used[..], i);
        n := n + PopCount(used[i]);
      }
      IndexSizes(c, by4, mapped, dormant, Model());
      IndexesPlaced(c, by4, mapped, dormant, Model());
      forall off | off in by4.Keys ensures 1 <= off < 64 * used.Length { OffsetFits(off); }
      OffsetFits(0);
      MarkedAll(used[..], by4.Keys);
      n := n - 1;
    }
  }

  /** NewPool: the prefix must be masked, between /8 and /31, and not reserved. */
  method NewPool(base: U32, bits: nat, minLease: int, maxLease: int) returns (p: Pool?)
    requires bits <= 32
    ensures p != null <==> Low(base, 32 - bits) == 0 && 8 <= bits <= 31 && !ClassifyIPv4(Enc32(base)).Invalid?
    ensures p != null ==> fresh(p) && fresh(p.used) && p.Valid() && p.c == Params(base, bits) && p.Model() == map[]
  {
    hide ClassifyIPv4, Low, IndexesOk, BitmapOk;
    if Low(base, 32 - bits) != 0 || bits < 8 || bits > 31 || ClassifyIPv4(Enc32(base)).Invalid? {
      return null;
    }
    Pow2Values();
    RoomBelow(base, 32 - bits, 32);
    p := new Pool(Params(base, bits), minLease, maxLease);
  }
}
