/** The address table: what a conflict-free set of entries looks up and maps. */
module Table {
  import opened Bytes
  import opened NetUtil
  import opened Bits
  import opened Prefixes
  import opened PoolSpec
  import opened Xlate

  /**
   * A static map, the NAT64 prefix, or the dynamic pool. A v4Only static entry is the translator's own derived address.
   */
  datatype Entry =
    | Static(sv4: Prefix4, sv6: Prefix6, v4Only: bool)
    | Nat64(nv6: Prefix6)
    | PoolRange(pv4: Prefix4)

  const ANY4: Prefix4 := Prefix4([0, 0, 0, 0], 0)

  function V4(e: Entry): Prefix4 {
    match e
    case Static(p, _, _) => p
    case Nat64(_) => ANY4
    case PoolRange(p) => p
  }

  /** Entries whose IPv6 side takes part in lookups. */
  predicate Registered6(e: Entry) {
    e.Nat64? || (e.Static? && !e.v4Only)
  }

  function V6(e: Entry): Prefix6
    requires Registered6(e)
  {
    if e.Nat64? then e.nv6 else e.sv6
  }

  // ----- What the builder accepts -----

  predicate ValidNat64(p: Prefix6) {
    ValidRFC6052PrefixLen(p.bits) && Masked6(p) && ValidIPv6(p.addr)
  }

  predicate ValidStatic(p4: Prefix4, p6: Prefix6) {
    && p4.bits <= 32 && p6.bits == 96 + p4.bits
    && Masked4(p4) && Masked6(p6)
    && !ClassifyIPv4(p4.addr).Invalid? && ValidIPv6(p6.addr)
  }

  predicate ValidEntry(e: Entry) {
    match e
    case Static(p4, p6, v4Only) =>
      if v4Only then p4.bits == 32 && p6.bits == 128 && !ClassifyIPv4(p4.addr).Invalid? else ValidStatic(p4, p6)
    case Nat64(p) => ValidNat64(p)
    case PoolRange(p) => 8 <= p.bits <= 31 && Masked4(p) && !ClassifyIPv4(p.addr).Invalid?
  }

  /** What holds of the builder's entries: each is valid, and there is at most one prefix and one pool. */
  ghost predicate ValidEntries(es: seq<Entry>) {
    && (forall i :: 0 <= i < |es| ==> ValidEntry(es[i]))
    && (forall i, j :: 0 <= i < j < |es| && es[i].Nat64? ==> !es[j].Nat64?)
    && (forall i, j :: 0 <= i < j < |es| && es[i].PoolRange? ==> !es[j].PoolRange?)
  }

  /** Two entries that cannot be in one table: the same IPv4 prefix, or overlapping IPv6 prefixes. */
  ghost predicate Clash(d: Entry, e: Entry) {
    || V4(d) == V4(e)
    || (Registered6(d) && Registered6(e) && Overlaps6(V6(d), V6(e)))
  }

  ghost predicate Conflicting(es: seq<Entry>) {
    exists i, j :: 0 <= i < j < |es| && Clash(es[i], es[j])
  }

  // ----- The table -----

  datatype Table = Table(strict: bool, hosts4: map<Addr4, Entry>, nets4: seq<Entry>, hosts6: map<Addr6, Entry>,
                         nets6: seq<Entry>)

  predicate Host4(e: Entry) { e.Static? && e.sv4.bits == 32 }
  predicate Host6(e: Entry) { e.Static? && e.sv6.bits == 128 }

  /** t is the table of the entries es. */
  ghost predicate TableOf(t: Table, es: seq<Entry>) {
    && (forall a :: a in t.hosts4 ==> t.hosts4[a] in es && Host4(t.hosts4[a]) && t.hosts4[a].sv4.addr == a)
    && (forall i :: 0 <= i < |es| && Host4(es[i]) ==> es[i].sv4.addr in t.hosts4 && t.hosts4[es[i].sv4.addr] == es[i])
    && (forall i :: 0 <= i < |t.nets4| ==> t.nets4[i] in es && !Host4(t.nets4[i]))
    && (forall i :: 0 <= i < |es| && !Host4(es[i]) ==> es[i] in t.nets4)
    && (forall i, j :: 0 <= i < j < |t.nets4| ==> V4(t.nets4[i]).bits >= V4(t.nets4[j]).bits)
    && (forall a :: a in t.hosts6 ==>
            t.hosts6[a] in es && Registered6(t.hosts6[a]) && Host6(t.hosts6[a]) && t.hosts6[a].sv6.addr == a)
    && (forall i :: 0 <= i < |es| && Registered6(es[i]) && Host6(es[i]) ==>
            es[i].sv6.addr in t.hosts6 && t.hosts6[es[i].sv6.addr] == es[i])
    && (forall i :: 0 <= i < |t.nets6| ==> t.nets6[i] in es && Registered6(t.nets6[i]) && !Host6(t.nets6[i]))
    && (forall i :: 0 <= i < |es| && Registered6(es[i]) && !Host6(es[i]) ==> es[i] in t.nets6)
  }

  function FirstNet4(nets: seq<Entry>, a: Addr4): (r: Option<Entry>)
    ensures r.Some? ==> r.value in nets && Contains4(V4(r.value), a)
    ensures r.None? ==> forall i :: 0 <= i < |nets| ==> !Contains4(V4(nets[i]), a)
  {
    if nets == [] then None else if Contains4(V4(nets[0]), a) then Some(nets[0]) else FirstNet4(nets[1..], a)
  }

  function FirstNet6(nets: seq<Entry>, a: Addr6): (r: Option<Entry>)
    requires forall i :: 0 <= i < |nets| ==> Registered6(nets[i])
    ensures r.Some? ==> r.value in nets && Registered6(r.value) && Contains6(V6(r.value), a)
    ensures r.None? ==> forall i :: 0 <= i < |nets| ==> !Contains6(V6(nets[i]), a)
  {
    if nets == [] then None else if Contains6(V6(nets[0]), a) then Some(nets[0]) else FirstNet6(nets[1..], a)
  }

  predicate WellFormed(t: Table) {
    (forall i :: 0 <= i < |t.nets6| ==> Registered6(t.nets6[i]))
  }

  function Lookup4(t: Table, a: Addr4): Option<Entry> {
    if a in t.hosts4 then Some(t.hosts4[a]) else FirstNet4(t.nets4, a)
  }

  function Lookup6(t: Table, a: Addr6): Option<Entry>
    requires WellFormed(t)
  {
    if a in t.hosts6 then Some(t.hosts6[a]) else FirstNet6(t.nets6, a)
  }

  // ----- Lookup agrees with the plain specification -----

  lemma NoClash(es: seq<Entry>, d: Entry, e: Entry)
    requires !Conflicting(es) && d in es && e in es && d != e
    ensures !Clash(d, e)
  {
    var i :| 0 <= i < |es| && es[i] == d;
    var j :| 0 <= j < |es| && es[j] == e;
    if i < j { assert !Clash(es[i], es[j]); } else { assert !Clash(es[j], es[i]); ClashSymmetric(d, e); }
  }

  lemma ClashSymmetric(d: Entry, e: Entry)
    ensures Clash(d, e) <==> Clash(e, d)
  {
    if Registered6(d) && Registered6(e) && V6(d).bits == V6(e).bits { Symmetric6(V6(d).addr, V6(e).addr, V6(d).bits); }
  }

  /** The longest match: e contains a and every other entry that does has a shorter prefix. */
  ghost predicate LongestMatch(es: seq<Entry>, a: Addr4, e: Entry) {
    && e in es && Contains4(V4(e), a)
    && forall i :: 0 <= i < |es| && es[i] != e && Contains4(V4(es[i]), a) ==> V4(es[i]).bits < V4(e).bits
  }

  lemma {:induction false} FirstNet4IsFirst(nets: seq<Entry>, a: Addr4) returns (k: nat)
    requires FirstNet4(nets, a).Some?
    ensures k < |nets| && nets[k] == FirstNet4(nets, a).value && forall m :: 0 <= m < k ==> !Contains4(V4(nets[m]), a)
    decreases |nets|
  {
    hide Contains4;
    if Contains4(V4(nets[0]), a) {
      k := 0;
    } else {
      var j := FirstNet4IsFirst(nets[1..], a);
      k := j + 1;
      forall m | 0 <= m < k ensures !Contains4(V4(nets[m]), a) {
        if m > 0 { assert nets[m] == nets[1..][m - 1]; }
      }
    }
  }

  lemma EntryMasked(e: Entry)
    requires ValidEntry(e)
    ensures Masked4(V4(e)) && V4(e).bits <= 32 && (V4(e).bits == 32 <==> Host4(e))
  {
    if e.Nat64? {
      LowZero(32);
      assert Val4(ANY4.addr) == 0;
    }
  }

  /** lookup4 finds the unique longest match among all entries, or nothing when no entry contains the address. */
  lemma Lookup4Longest(t: Table, es: seq<Entry>, a: Addr4)
    requires ValidEntries(es) && !Conflicting(es) && TableOf(t, es)
    ensures match Lookup4(t, a)
            case Some(e) => LongestMatch(es, a, e)
            case None => forall i :: 0 <= i < |es| ==> !Contains4(V4(es[i]), a)
  {
    hide Contains4, Masked4, Conflicting, Clash, ValidEntry;
    forall i | 0 <= i < |es| && Host4(es[i]) && Contains4(V4(es[i]), a) ensures a in t.hosts4 && t.hosts4[a] == es[i] {
      FullLength4(es[i].sv4, a);
    }
    var r := Lookup4(t, a);
    if r.Some? {
      var e := r.value;
      assert e in es && Contains4(V4(e), a) by { if a in t.hosts4 { FullLength4(e.sv4, a); } }
      forall i | 0 <= i < |es| && es[i] != e && Contains4(V4(es[i]), a) ensures V4(es[i]).bits < V4(e).bits {
        OthersShorter(t, es, a, e, es[i]);
      }
    } else {
      forall i | 0 <= i < |es| ensures !Contains4(V4(es[i]), a) {
        if !Host4(es[i]) { var k :| 0 <= k < |t.nets4| && t.nets4[k] == es[i]; }
      }
    }
  }

  lemma OthersShorter(t: Table, es: seq<Entry>, a: Addr4, e: Entry, o: Entry)
    requires ValidEntries(es) && !Conflicting(es) && TableOf(t, es) && Lookup4(t, a) == Some(e)
    requires e in es && o in es && o != e && Contains4(V4(o), a) && Contains4(V4(e), a)
    ensures V4(o).bits < V4(e).bits
  {
    hide Contains4, Masked4, Conflicting, Clash, ValidEntry;
    EntryMasked(o);
    EntryMasked(e);
    NoClash(es, o, e);
    assert V4(o) != V4(e) by { ClashV4(o, e); }
    if V4(o).bits == V4(e).bits { SameLength4(V4(o), V4(e), a); }
    if a !in t.hosts4 && V4(o).bits > V4(e).bits {
      if Host4(o) { FullLength4(o.sv4, a); }
      var k := FirstNet4IsFirst(t.nets4, a);
    }
  }

  lemma ClashV4(d: Entry, e: Entry)
    requires !Clash(d, e)
    ensures V4(d) != V4(e)
  {
  }

  /** At most one registered entry contains an IPv6 address. */
  lemma Unique6(es: seq<Entry>, d: Entry, e: Entry, a: Addr6)
    requires !Conflicting(es) && d in es && e in es && Registered6(d) && Registered6(e)
    requires Contains6(V6(d), a) && Contains6(V6(e), a)
    ensures d == e
  {
    hide Contains6;
    CommonMemberOverlaps(V6(d), V6(e), a);
    if d != e { NoClash(es, d, e); }
  }

  /** lookup6 finds the one registered entry that contains the address, whatever the order of the indexes. */
  lemma Lookup6Unique(t: Table, es: seq<Entry>, a: Addr6)
    requires ValidEntries(es) && !Conflicting(es) && TableOf(t, es)
    ensures WellFormed(t)
    ensures match Lookup6(t, a)
            case Some(e) => e in es && Registered6(e) && Contains6(V6(e), a)
                            && (forall i :: 0 <= i < |es| && Registered6(es[i]) && Contains6(V6(es[i]), a) ==>
                                    es[i] == e)
            case None => forall i :: 0 <= i < |es| && Registered6(es[i]) ==> !Contains6(V6(es[i]), a)
  {
    hide Contains6, Conflicting, ValidEntry, Contains4;
    var r := Lookup6(t, a);
    if r.Some? {
      var e := r.value;
      assert e in es && Registered6(e) && Contains6(V6(e), a) by { if a in t.hosts6 { FullLength6(e.sv6, a); } }
      forall i | 0 <= i < |es| && Registered6(es[i]) && Contains6(V6(es[i]), a) ensures es[i] == e {
        Unique6(es, es[i], e, a);
      }
    } else {
      forall i | 0 <= i < |es| && Registered6(es[i]) ensures !Contains6(V6(es[i]), a) {
        if Host6(es[i]) { FullLength6(es[i].sv6, a); } else { var k :| 0 <= k < |t.nets6| && t.nets6[k] == es[i]; }
      }
    }
  }

  // ----- Mapping -----

  function Or32(x: U32, y: U32): U32 {
    Pow2Values();
    OrBound(x, y, 32);
    Or(x, y)
  }

  /** x & (0xffffffff >> bits) */
  function Host32(x: U32, bits: nat): U32 {
    var k := if bits <= 32 then 32 - bits else 0;
    LowBound(x, k);
    Low(x, k)
  }

  /** joinStatic6: the host bits of a go into the last four bytes of the IPv6 side. */
  function JoinStatic6(e: Entry, a: Addr4): Addr6
    requires e.Static?
  {
    if e.sv4.bits == 32 then e.sv6.addr
    else e.sv6.addr[..12] + Enc32(Or32(LowWord(e.sv6.addr), Host32(Val4(a), e.sv4.bits)))
  }

  function JoinStatic4(e: Entry, a: Addr6): Addr4
    requires e.Static?
  {
    if e.sv6.bits == 128 then e.sv4.addr
    else Enc32(Or32(Val4(e.sv4.addr), Host32(LowWord(a), e.sv4.bits)))
  }

  /** RFC 6052 forbids private addresses under the well-known prefix. */
  predicate Forbidden(t: Table, p: Prefix6, a: Addr4) {
    t.strict && IsWellKnownPrefix(p.addr, p.bits) && IsPrivateIPv4(a)
  }

  function EmbedIn(t: Table, p: Prefix6, a: Addr4): MapResult<Addr6> {
    if ClassifyIPv4(a) != Usable then Drop
    else if Forbidden(t, p, a) then Reject
    else
      match Embed(p.addr, p.bits, a)
      case Some(x) => Mapped(x)
      case None => Drop
  }

  /** The dynamic pool as the table sees it. */
  datatype PoolView = NoPool | WithPool(c: Params, s: State)

  /** MapIPv4ToIPv6. */
  function Map4to6(t: Table, pv: PoolView, a: Addr4): MapResult<Addr6> {
    match Lookup4(t, a)
    case None => Reject
    case Some(Static(p4, p6, v4Only)) => Mapped(JoinStatic6(Static(p4, p6, v4Only), a))
    case Some(Nat64(p)) => EmbedIn(t, p, a)
    case Some(PoolRange(_)) =>
      if pv.NoPool? then Drop
      else
        var off := Low(Val4(a), HostBits(pv.c));
        if off in pv.s && !pv.s[off].dormant then Mapped(pv.s[off].v6) else Reject
  }

  /** The answer of MapIPv6ToIPv4 for an address in the prefix. */
  function Unembed(t: Table, e: Entry, x: Addr6): MapResult<Addr4>
    requires e.Nat64?
  {
    match Extract(x, e.nv6.bits)
    case None => Drop
    case Some(a) =>
      if ClassifyIPv4(a) != Usable then Drop
      else if Forbidden(t, e.nv6, a) then Reject
      else if Lookup4(t, a) != Some(e) then Drop
      else Mapped(a)
  }

  /** MapIPv6ToIPv4 without allocation: an unregistered address is looked for among the mapped hosts of the pool. */
  ghost function Map6to4(t: Table, pv: PoolView, x: Addr6): MapResult<Addr4>
    requires WellFormed(t)
    requires pv.WithPool? ==> ValidParams(pv.c) && Inv(pv.c, pv.s)
  {
    match Lookup6(t, x)
    case None =>
      if pv.WithPool? && exists off :: IsMapped(pv.s, x, off)
      then var off :| IsMapped(pv.s, x, off); Mapped(Enc32(pv.c.base + off))
      else Reject
    case Some(Static(p4, p6, v4Only)) => Mapped(JoinStatic4(Static(p4, p6, v4Only), x))
    case Some(Nat64(p)) => Unembed(t, Nat64(p), x)
    case Some(PoolRange(_)) => Drop
  }

  // ----- Static maps -----

  /** Joining stays inside the IPv6 side and can be undone. */
  lemma JoinThere(e: Entry, a: Addr4)
    requires e.Static? && ValidStatic(e.sv4, e.sv6) && Contains4(e.sv4, a)
    ensures Contains6(e.sv6, JoinStatic6(e, a)) && JoinStatic4(e, JoinStatic6(e, a)) == a
            && ValidIPv6(JoinStatic6(e, a))
  {
    hide Shr, Low, Or, Get32, Enc32, ClassifyIPv4;
    var x := JoinStatic6(e, a);
    if e.sv4.bits == 32 {
      FullLength4(e.sv4, a);
      FullLength6(e.sv6, x);
    } else {
      var k := 32 - e.sv4.bits;
      var h := Host32(Val4(a), e.sv4.bits);
      LowBound(Val4(a), k);
      LowMasked(e.sv6);
      OrDisjoint(LowWord(e.sv6.addr), h, k);
      JoinParts(LowWord(e.sv6.addr), h, k);
      LowWordOf(e.sv6.addr[..12], LowWord(e.sv6.addr) + h);
      assert x[..12] == e.sv6.addr[..12];
      if e.sv6.bits == 96 { ByteGone(x[12]); ByteGone(e.sv6.addr[12]); }
      OrDisjoint(Val4(e.sv4.addr), h, k);
      SameHigh(Val4(a), Val4(e.sv4.addr), k);
      EncodeVal4(a);
      assert x[0] == x[..12][0] && x[1] == x[..12][1] && x[2] == x[..12][2] && x[3] == x[..12][3];
    }
  }

  lemma LowMasked(p: Prefix6)
    requires Masked6(p) && 96 <= p.bits <= 128
    ensures Low(LowWord(p.addr), 128 - p.bits) == 0
  {
    if p.bits == 96 {
      assert Low(p.addr[12], 8) == 0;
      Pow2Values();
      LowWraps(p.addr[12], 8);
      LowZero(32);
    }
  }

  lemma LowWordOf(front: seq<Byte>, v: U32)
    requires |front| == 12
    ensures LowWord(front + Enc32(v)) == v
  {
    assert (front + Enc32(v))[12..] == Enc32(v);
    assert Get32(front + Enc32(v), 12) == Get32((front + Enc32(v))[12..], 0);
  }

  /** The other way round. */
  lemma JoinBack(e: Entry, x: Addr6)
    requires e.Static? && ValidStatic(e.sv4, e.sv6) && Contains6(e.sv6, x)
    ensures Contains4(e.sv4, JoinStatic4(e, x)) && JoinStatic6(e, JoinStatic4(e, x)) == x
  {
    hide Shr, Low, Or, Get32, Enc32, ClassifyIPv4, ValidIPv6;
    var a := JoinStatic4(e, x);
    if e.sv4.bits == 32 {
      FullLength4(e.sv4, a);
      FullLength6(e.sv6, x);
    } else {
      var k := 32 - e.sv4.bits;
      var h := Host32(LowWord(x), e.sv4.bits);
      LowBound(LowWord(x), k);
      OrDisjoint(Val4(e.sv4.addr), h, k);
      JoinParts(Val4(e.sv4.addr), h, k);
      Val4Of(Val4(e.sv4.addr) + h);
      LowMasked(e.sv6);
      OrDisjoint(LowWord(e.sv6.addr), h, k);
      if e.sv6.bits == 96 { AllHost(LowWord(x)); AllHost(LowWord(e.sv6.addr)); }
      SameHigh(LowWord(x), LowWord(e.sv6.addr), k);
      EncodeLowWord(x);
      assert x == x[..12] + x[12..];
    }
  }

  lemma AllHost(v: U32)
    ensures Shr(v, 32) == 0
  {
    Pow2Values();
    ShrZero(v, 32);
  }

  lemma Val4Of(v: U32)
    ensures Val4(Enc32(v)) == v
  {
  }

  // ----- The prefix -----

  lemma EmbedThere(t: Table, p: Prefix6, a: Addr4, x: Addr6)
    requires ValidNat64(p) && EmbedIn(t, p, a) == Mapped(x)
    ensures Contains6(p, x) && Extract(x, p.bits) == Some(a) && ValidIPv6(x)
  {
    hide Carries, Embed, Extract, ClassifyIPv4, Forbidden;
    EmbedCarries(p.addr, p.bits, a, x);
    CarriesPrefix(x, p.addr, p.bits, a);
    ExtractFinds(x, p.bits, a);
    ByteGone(x[p.bits / 8]);
    ByteGone(p.addr[p.bits / 8]);
    assert x[0] == x[..p.bits / 8][0] && x[1] == x[..p.bits / 8][1] && x[2] == x[..p.bits / 8][2]
           && x[3] == x[..p.bits / 8][3];
  }

  /** Whether an address carries v4 depends on the prefix only through the prefix octets. */
  lemma CarriesPrefix(x: Addr6, prefix: Addr6, len: nat, v4: Addr4)
    requires ValidRFC6052PrefixLen(len)
    ensures Carries(x, prefix, len, v4) <==> Carries(x, x, len, v4) && x[..len / 8] == prefix[..len / 8]
  {
  }

  /** Hairpin soundness: what maps to IPv4 through the prefix maps forward to the very same IPv6 address. */
  lemma Hairpin(t: Table, pv: PoolView, e: Entry, x: Addr6, a: Addr4)
    requires WellFormed(t) && e.Nat64? && ValidNat64(e.nv6) && Contains6(e.nv6, x) && Unembed(t, e, x) == Mapped(a)
    ensures Map4to6(t, pv, a) == Mapped(x)
  {
    hide Carries, Embed, Extract, ClassifyIPv4, Forbidden, Lookup4;
    var p := e.nv6;
    ExtractFinds(x, p.bits, a);
    CarriesPrefix(x, p.addr, p.bits, a);
    EmbedCarries(p.addr, p.bits, a, x);
  }
}
