/** The builder that checks a set of entries and indexes them into a table. */
module TableBuilder {
  import opened Bytes
  import opened NetUtil
  import opened Prefixes
  import opened PoolSpec
  import opened PoolIndex
  import opened Bits
  import opened DynamicPool
  import opened Table
  import opened TableLaws
  import opened AddressMap

  // ----- Pairs of entries -----

  /** Two different positions hold entries that stand in r. */
  ghost predicate HasPair(s: seq<Entry>, r: (Entry, Entry) -> bool) {
    exists i, j :: 0 <= i < j < |s| && r(s[i], s[j])
  }

  ghost predicate Symmetric(r: (Entry, Entry) -> bool) {
    forall d, e :: r(d, e) <==> r(e, d)
  }

  ghost predicate Meets(s: seq<Entry>, r: (Entry, Entry) -> bool, e: Entry) {
    exists i :: 0 <= i < |s| && r(s[i], e)
  }

  lemma PairInsert(s: seq<Entry>, k: nat, e: Entry, r: (Entry, Entry) -> bool)
    requires k <= |s| && Symmetric(r)
    ensures HasPair(s[..k] + [e] + s[k..], r) <==> HasPair(s, r) || Meets(s, r, e)
  {
    hide HasPair, Meets;
    var t := s[..k] + [e] + s[k..];
    if HasPair(t, r) { PairBefore(s, t, k, e, r); }
    if HasPair(s, r) || Meets(s, r, e) { PairAfter(s, t, k, e, r); }
  }

  lemma PairBefore(s: seq<Entry>, t: seq<Entry>, k: nat, e: Entry, r: (Entry, Entry) -> bool)
    requires k <= |s| && Symmetric(r) && t == s[..k] + [e] + s[k..] && HasPair(t, r)
    ensures HasPair(s, r) || Meets(s, r, e)
  {
    var i, j :| 0 <= i < j < |t| && r(t[i], t[j]);
    if i != k && j != k {
      var i', j' := if i < k then i else i - 1, if j < k then j else j - 1;
      assert t[i] == s[i'] && t[j] == s[j'];
    } else {
      var o := if i == k then j - 1 else i;
      assert r(s[o], e);
    }
  }

  lemma PairAfter(s: seq<Entry>, t: seq<Entry>, k: nat, e: Entry, r: (Entry, Entry) -> bool)
    requires k <= |s| && Symmetric(r) && t == s[..k] + [e] + s[k..] && (HasPair(s, r) || Meets(s, r, e))
    ensures HasPair(t, r)
  {
    if HasPair(s, r) {
      var i, j :| 0 <= i < j < |s| && r(s[i], s[j]);
      var i', j' := if i < k then i else i + 1, if j < k then j else j + 1;
      assert t[i'] == s[i] && t[j'] == s[j];
    } else {
      var i :| 0 <= i < |s| && r(s[i], e);
      if i < k { assert t[i] == s[i] && t[k] == e; } else { assert t[k] == e && t[i + 1] == s[i]; }
    }
  }

  lemma PairAppend(s: seq<Entry>, e: Entry, r: (Entry, Entry) -> bool)
    requires Symmetric(r)
    ensures HasPair(s + [e], r) <==> HasPair(s, r) || Meets(s, r, e)
  {
    PairInsert(s, |s|, e, r);
    assert s[..|s|] + [e] + s[|s|..] == s + [e];
  }

  lemma TakeOut(t: seq<Entry>, e: Entry) returns (k: nat, rest: seq<Entry>)
    requires e in multiset(t)
    ensures k <= |rest| && t == rest[..k] + [e] + rest[k..] && multiset(rest) == multiset(t) - multiset{e}
  {
    k :| 0 <= k < |t| && t[k] == e;
    rest := t[..k] + t[k + 1..];
    assert t == rest[..k] + [e] + rest[k..];
    assert multiset(t) == multiset(rest[..k]) + multiset{e} + multiset(rest[k..]);
    assert rest == rest[..k] + rest[k..];
  }

  /** Whether there is such a pair does not depend on the order. */
  lemma {:induction false} PairPermutes(s: seq<Entry>, t: seq<Entry>, r: (Entry, Entry) -> bool)
    requires multiset(s) == multiset(t) && Symmetric(r)
    ensures HasPair(s, r) <==> HasPair(t, r)
    decreases |s|
  {
    hide Symmetric;
    if s == [] {
      assert |t| == |multiset(t)| == |multiset(s)| == 0;
    } else {
      hide HasPair, Meets;
      var n := |s| - 1;
      var e := s[n];
      assert s == s[..n] + [e];
      var k, rest := TakeOut(t, e);
      assert multiset(s) == multiset(s[..n]) + multiset{e};
      PairPermutes(s[..n], rest, r);
      PairInsert(rest, k, e, r);
      PairAppend(s[..n], e, r);
      MeetsPermutes(s[..n], rest, r, e);
      MeetsPermutes(rest, s[..n], r, e);
    }
  }

  lemma SameMembers<T>(s: seq<T>, t: seq<T>)
    requires multiset(s) == multiset(t)
    ensures forall e :: e in s <==> e in t
  {
    forall e ensures e in s <==> e in t { assert e in multiset(s) <==> e in multiset(t); }
  }

  lemma MeetsPermutes(s: seq<Entry>, t: seq<Entry>, r: (Entry, Entry) -> bool, e: Entry)
    requires multiset(s) == multiset(t)
    ensures Meets(s, r, e) ==> Meets(t, r, e)
  {
    if Meets(s, r, e) {
      var i :| 0 <= i < |s| && r(s[i], e);
      assert s[i] in multiset(t);
      var k :| 0 <= k < |t| && t[k] == s[i];
    }
  }

  // ----- The two kinds of conflict -----

  ghost predicate SameV4(d: Entry, e: Entry) {
    V4(d) == V4(e)
  }

  ghost predicate Overlapping(d: Entry, e: Entry) {
    Registered6(d) && Registered6(e) && Overlaps6(V6(d), V6(e))
  }

  ghost predicate BothNat64(d: Entry, e: Entry) {
    d.Nat64? && e.Nat64?
  }

  ghost predicate BothPool(d: Entry, e: Entry) {
    d.PoolRange? && e.PoolRange?
  }

  lemma OverlappingSymmetric()
    ensures Symmetric(Overlapping)
  {
    forall d: Entry, e: Entry ensures Overlapping(d, e) <==> Overlapping(e, d) {
      if Registered6(d) && Registered6(e) && V6(d).bits == V6(e).bits {
        Symmetric6(V6(d).addr, V6(e).addr, V6(d).bits);
      }
    }
  }

  lemma SameV4Symmetric()
    ensures Symmetric(SameV4)
  {
  }

  lemma ConflictKinds(es: seq<Entry>)
    ensures Conflicting(es) <==> HasPair(es, SameV4) || HasPair(es, Overlapping)
  {
    hide Overlaps6;
    if HasPair(es, SameV4) {
      var i, j :| 0 <= i < j < |es| && SameV4(es[i], es[j]);
      assert Clash(es[i], es[j]);
    }
    if HasPair(es, Overlapping) {
      var i, j :| 0 <= i < j < |es| && Overlapping(es[i], es[j]);
      assert Clash(es[i], es[j]);
    }
    if Conflicting(es) {
      var i, j :| 0 <= i < j < |es| && Clash(es[i], es[j]);
      assert SameV4(es[i], es[j]) || Overlapping(es[i], es[j]);
    }
  }

  // ----- Sorting -----

  function Length4(e: Entry): nat { V4(e).bits }
  function Length6(e: Entry): nat { if Registered6(e) then V6(e).bits else 0 }

  ghost predicate Descending(s: seq<Entry>, key: Entry -> nat) {
    forall i, j :: 0 <= i < j < |s| ==> key(s[i]) >= key(s[j])
  }

  /** The entries of s with key n, in their order. */
  ghost function WithKey(s: seq<Entry>, key: Entry -> nat, n: nat): seq<Entry> {
    if s == [] then []
    else if key(s[0]) == n then [s[0]] + WithKey(s[1..], key, n)
    else WithKey(s[1..], key, n)
  }

  /** Two lists hold entries with equal keys in the same order. */
  ghost predicate SameOrder(s: seq<Entry>, es: seq<Entry>, key: Entry -> nat) {
    forall n: nat :: WithKey(s, key, n) == WithKey(es, key, n)
  }

  lemma {:induction false} WithKeyConcat(a: seq<Entry>, b: seq<Entry>, key: Entry -> nat, n: nat)
    ensures WithKey(a + b, key, n) == WithKey(a, key, n) + WithKey(b, key, n)
    decreases |a|
  {
    if a == [] {
      assert a + b == b;
    } else {
      assert (a + b)[1..] == a[1..] + b;
      WithKeyConcat(a[1..], b, key, n);
    }
  }

  lemma {:induction false} WithKeyNone(s: seq<Entry>, key: Entry -> nat, n: nat)
    requires forall i :: 0 <= i < |s| ==> key(s[i]) != n
    ensures WithKey(s, key, n) == []
    decreases |s|
  {
    if s != [] { WithKeyNone(s[1..], key, n); }
  }

  /** Largest key first; entries with equal keys keep their order. */
  method SortDescending(es: seq<Entry>, key: Entry -> nat) returns (s: seq<Entry>)
    ensures multiset(s) == multiset(es) && Descending(s, key) && SameOrder(s, es, key)
  {
    hide Descending, SameOrder;
    s := [];
    assert Descending(s, key) && SameOrder(s, [], key) by { EmptyDescends(key); }
    for n := 0 to |es|
      invariant multiset(s) == multiset(es[..n]) && Descending(s, key) && SameOrder(s, es[..n], key)
    {
      assert es[..n + 1] == es[..n] + [es[n]];
      ghost var t := s;
      s := InsertDescending(s, es[n], key);
      AppendKeepsOrder(t, es[..n], es[n], key);
      assert SameOrder(s, es[..n + 1], key) by { SameOrderThrough(s, t + [es[n]], es[..n] + [es[n]], key); }
    }
    assert es[..|es|] == es;
  }

  lemma AppendKeepsOrder(s: seq<Entry>, t: seq<Entry>, e: Entry, key: Entry -> nat)
    requires SameOrder(s, t, key)
    ensures SameOrder(s + [e], t + [e], key)
  {
    forall n: nat ensures WithKey(s + [e], key, n) == WithKey(t + [e], key, n) {
      WithKeyConcat(s, [e], key, n);
      WithKeyConcat(t, [e], key, n);
    }
  }

  lemma SameOrderThrough(r: seq<Entry>, s: seq<Entry>, t: seq<Entry>, key: Entry -> nat)
    requires SameOrder(r, s, key) && SameOrder(s, t, key)
    ensures SameOrder(r, t, key)
  {
  }

  lemma EmptyDescends(key: Entry -> nat)
    ensures Descending([], key) && SameOrder([], [], key)
  {
  }

  method InsertDescending(s: seq<Entry>, e: Entry, key: Entry -> nat) returns (r: seq<Entry>)
    requires Descending(s, key)
    ensures multiset(r) == multiset(s) + multiset{e} && Descending(r, key) && SameOrder(r, s + [e], key)
  {
    hide Descending, SameOrder;
    var k := |s|;
    while k > 0 && key(s[k - 1]) < key(e)
      invariant 0 <= k <= |s| && (k < |s| ==> key(s[k]) < key(e))
    {
      k := k - 1;
    }
    assert s == s[..k] + s[k..];
    r := s[..k] + [e] + s[k..];
    InsertDescends(s, k, e, key, r);
    InsertKeepsOrder(s, k, e, key);
  }

  lemma InsertKeepsOrder(s: seq<Entry>, k: nat, e: Entry, key: Entry -> nat)
    requires k <= |s| && Descending(s, key) && (k < |s| ==> key(s[k]) < key(e))
    ensures SameOrder(s[..k] + [e] + s[k..], s + [e], key)
  {
    var a, b := s[..k], s[k..];
    forall n: nat ensures WithKey(a + [e] + b, key, n) == WithKey(s + [e], key, n) {
      assert s == a + b;
      WithKeyConcat(a + [e], b, key, n);
      WithKeyConcat(a, [e], key, n);
      WithKeyConcat(s, [e], key, n);
      WithKeyConcat(a, b, key, n);
      if n == key(e) { WithKeyNone(b, key, n); } else { WithKeyNone([e], key, n); }
    }
  }

  lemma InsertDescends(s: seq<Entry>, k: nat, e: Entry, key: Entry -> nat, r: seq<Entry>)
    requires k <= |s| && Descending(s, key) && r == s[..k] + [e] + s[k..]
    requires k > 0 ==> key(s[k - 1]) >= key(e)
    requires k < |s| ==> key(s[k]) <= key(e)
    ensures Descending(r, key)
  {
    forall i, j | 0 <= i < j < |r| ensures key(r[i]) >= key(r[j]) {
      var i', j' := if i < k then i else i - 1, if j < k then j else j - 1;
      assert i != k ==> r[i] == s[i'];
      assert j != k ==> r[j] == s[j'];
    }
  }

  // ----- Indexing -----

  /** The IPv4 indexes of the entries es, none of which but the pool shares its IPv4 prefix with another. */
  ghost predicate Indexed4(es: seq<Entry>, hosts4: map<Addr4, Entry>, nets4: seq<Entry>) {
    && (forall a :: a in hosts4 ==> hosts4[a] in es && Host4(hosts4[a]) && hosts4[a].sv4.addr == a)
    && (forall i :: 0 <= i < |es| && Host4(es[i]) ==> es[i].sv4.addr in hosts4 && hosts4[es[i].sv4.addr] == es[i])
    && (forall i :: 0 <= i < |nets4| ==> nets4[i] in es && !Host4(nets4[i]))
    && (forall i :: 0 <= i < |es| && !Host4(es[i]) ==> es[i] in nets4)
    && (forall i, j :: 0 <= i < j < |es| && SameV4(es[i], es[j]) ==> es[i].PoolRange? || es[j].PoolRange?)
  }

  ghost predicate Indexed6(es: seq<Entry>, hosts6: map<Addr6, Entry>, nets6: seq<Entry>) {
    && (forall a :: a in hosts6 ==>
            hosts6[a] in es && Registered6(hosts6[a]) && Host6(hosts6[a]) && hosts6[a].sv6.addr == a)
    && (forall i :: 0 <= i < |es| && Host6(es[i]) ==> es[i].sv6.addr in hosts6 && hosts6[es[i].sv6.addr] == es[i])
    && (forall i :: 0 <= i < |nets6| ==> nets6[i] in es && Registered6(nets6[i]) && !Host6(nets6[i]))
    && (forall i :: 0 <= i < |es| && !Host6(es[i]) ==> es[i] in nets6)
    && !HasPair(es, Overlapping)
  }

  /** The registered entries of es, for the IPv6 side. */
  ghost predicate Registers(es: seq<Entry>, v6s: seq<Entry>) {
    && (forall i :: 0 <= i < |v6s| ==> v6s[i] in es && Registered6(v6s[i]))
    && (forall i :: 0 <= i < |es| && Registered6(es[i]) ==> es[i] in v6s)
    && (HasPair(v6s, Overlapping) <==> HasPair(es, Overlapping))
  }

  lemma AddHost4(es: seq<Entry>, e: Entry, hosts4: map<Addr4, Entry>, nets4: seq<Entry>)
    requires Indexed4(es, hosts4, nets4) && Host4(e) && e.sv4.addr !in hosts4
    ensures Indexed4(es + [e], hosts4[e.sv4.addr := e], nets4)
  {
    var es' := es + [e];
    assert forall d :: d in es' <==> d in es || d == e;
  }

  lemma AddNet4(es: seq<Entry>, e: Entry, hosts4: map<Addr4, Entry>, nets4: seq<Entry>)
    requires Indexed4(es, hosts4, nets4) && !Host4(e)
    requires forall d :: d in nets4 && !d.PoolRange? && SameV4(d, e) ==> e.PoolRange?
    requires forall d :: d in es && Host4(d) ==> !SameV4(d, e)
    ensures Indexed4(es + [e], hosts4, nets4 + [e])
  {
    var es' := es + [e];
    assert forall d :: d in es' <==> d in es || d == e;
    forall i, j | 0 <= i < j < |es'| && SameV4(es'[i], es'[j]) ensures es'[i].PoolRange? || es'[j].PoolRange? {
      if j == |es| && !es[i].PoolRange? { assert es[i] in es; }
    }
  }

  lemma AddRegistered(es: seq<Entry>, e: Entry, v6s: seq<Entry>)
    requires Registers(es, v6s)
    ensures Registers(es + [e], if Registered6(e) then v6s + [e] else v6s)
  {
    hide HasPair, Overlaps6;
    OverlappingSymmetric();
    PairAppend(es, e, Overlapping);
    assert forall d :: d in es + [e] <==> d in es || d == e;
    if Registered6(e) {
      PairAppend(v6s, e, Overlapping);
      assert Meets(es, Overlapping, e) <==> Meets(v6s, Overlapping, e) by {
        if Meets(es, Overlapping, e) {
          var i :| 0 <= i < |es| && Overlapping(es[i], e);
          var k :| 0 <= k < |v6s| && v6s[k] == es[i];
        }
        if Meets(v6s, Overlapping, e) {
          var i :| 0 <= i < |v6s| && Overlapping(v6s[i], e);
          var k :| 0 <= k < |es| && es[k] == v6s[i];
        }
      }
    }
  }

  lemma AddHost6(es: seq<Entry>, e: Entry, hosts6: map<Addr6, Entry>, nets6: seq<Entry>)
    requires Indexed6(es, hosts6, nets6) && Host6(e) && Registered6(e) && !Meets(es, Overlapping, e)
    ensures Indexed6(es + [e], hosts6[e.sv6.addr := e], nets6)
  {
    hide HasPair, Overlaps6;
    var es' := es + [e];
    OverlappingSymmetric();
    PairAppend(es, e, Overlapping);
    assert forall d :: d in es' <==> d in es || d == e;
    if e.sv6.addr in hosts6 {
      var d := hosts6[e.sv6.addr];
      var i :| 0 <= i < |es| && es[i] == d;
      SameOverlaps(d.sv6);
    }
  }

  lemma SameOverlaps(p: Prefix6)
    requires p.bits <= 128
    ensures Overlaps6(p, p)
  {
  }

  lemma AddNet6(es: seq<Entry>, e: Entry, hosts6: map<Addr6, Entry>, nets6: seq<Entry>)
    requires Indexed6(es, hosts6, nets6) && !Host6(e) && Registered6(e) && !Meets(es, Overlapping, e)
    ensures Indexed6(es + [e], hosts6, nets6 + [e])
  {
    hide HasPair, Overlaps6;
    OverlappingSymmetric();
    PairAppend(es, e, Overlapping);
    assert forall d :: d in es + [e] <==> d in es || d == e;
  }

  /** Whether a net other than the pool already has the prefix of e. */
  method MappedTwice(nets4: seq<Entry>, e: Entry) returns (dup: bool)
    ensures dup <==> exists i :: 0 <= i < |nets4| && !nets4[i].PoolRange? && V4(nets4[i]) == V4(e)
  {
    for i := 0 to |nets4|
      invariant forall k :: 0 <= k < i ==> nets4[k].PoolRange? || V4(nets4[k]) != V4(e)
    {
      if !nets4[i].PoolRange? && V4(nets4[i]) == V4(e) {
        return true;
      }
    }
    return false;
  }

  /** Whether a static net has the prefix of the pool. */
  method PoolIsStatic(nets4: seq<Entry>, pool: Entry) returns (dup: bool)
    requires pool.PoolRange?
    ensures dup <==> exists i :: 0 <= i < |nets4| && nets4[i].Static? && V4(nets4[i]) == V4(pool)
  {
    for i := 0 to |nets4|
      invariant forall k :: 0 <= k < i ==> !nets4[k].Static? || V4(nets4[k]) != V4(pool)
    {
      if nets4[i] != pool && nets4[i].Static? && V4(nets4[i]) == V4(pool) {
        return true;
      }
    }
    return false;
  }

  /** Whether an entry already indexed overlaps e. */
  method OverlapsEarlier(es: seq<Entry>, e: Entry) returns (b: bool)
    requires Registered6(e) && forall i :: 0 <= i < |es| ==> Registered6(es[i])
    ensures b <==> Meets(es, Overlapping, e)
  {
    hide Overlaps6;
    for i := 0 to |es|
      invariant forall k :: 0 <= k < i ==> !Overlapping(es[k], e)
    {
      if Overlaps6(V6(es[i]), V6(e)) {
        assert Overlapping(es[i], e);
        return true;
      }
    }
    return false;
  }

  lemma PairAt(s: seq<Entry>, i: nat, j: nat, r: (Entry, Entry) -> bool)
    requires i < j < |s| && r(s[i], s[j])
    ensures HasPair(s, r)
  {
  }

  /** The first loop of Build, over the entries with the longest IPv4 prefix first. */
  method Index4(es: seq<Entry>) returns (ok: bool, hosts4: map<Addr4, Entry>, nets4: seq<Entry>, v6s: seq<Entry>,
                pool: Option<Entry>)
    requires (forall i :: 0 <= i < |es| ==> ValidEntry(es[i])) && !HasPair(es, BothNat64) && Descending(es, Length4)
    ensures !ok ==> HasPair(es, SameV4)
    ensures ok ==> Indexed4(es, hosts4, nets4) && Registers(es, v6s) && Descending(nets4, Length4)
    ensures ok ==>
              (pool.Some? ==> pool.value in es && pool.value.PoolRange?)
              && (pool.None? ==> forall i :: 0 <= i < |es| ==> !es[i].PoolRange?)
  {
    hide ValidEntry, Indexed4, Registers, HasPair, Descending;
    ok, hosts4, nets4, v6s, pool := true, map[], [], [], None;
    assert es[..0] == [];
    StartIndex(es);
    for k := 0 to |es|
      invariant Indexed4(es[..k], hosts4, nets4) && Registers(es[..k], v6s) && Descending(nets4, Length4)
      invariant forall d, i :: d in nets4 && k <= i < |es| ==> Length4(d) >= Length4(es[i])
      invariant pool.Some? ==> pool.value in es && pool.value.PoolRange?
      invariant pool.None? ==> forall i :: 0 <= i < k ==> !es[i].PoolRange?
    {
      var e := es[k];
      assert es[..k + 1] == es[..k] + [e];
      AddRegistered(es[..k], e, v6s);
      if e.Static? && e.sv4.bits == 32 {
        if e.sv4.addr in hosts4 {
          AddressTwice(es, k, hosts4, nets4);
          return false, hosts4, nets4, v6s, pool;
        }
        AddHost4(es[..k], e, hosts4, nets4);
        hosts4 := hosts4[e.sv4.addr := e];
      } else {
        if e.PoolRange? {
          pool := Some(e);
        } else if e.Static? {
          var dup := MappedTwice(nets4, e);
          if dup {
            PrefixTwice(es, k, hosts4, nets4);
            return false, hosts4, nets4, v6s, pool;
          }
        }
        NetIsNew(es, k, hosts4, nets4);
        AddNet4(es[..k], e, hosts4, nets4);
        AppendDescends(nets4, es, k);
        nets4 := nets4 + [e];
      }
      if Registered6(e) {
        v6s := v6s + [e];
      }
    }
    assert es[..|es|] == es;
  }

  lemma StartIndex(es: seq<Entry>)
    ensures Indexed4([], map[], []) && Registers([], []) && Descending([], Length4)
  {
  }

  lemma AddressTwice(es: seq<Entry>, k: nat, hosts4: map<Addr4, Entry>, nets4: seq<Entry>)
    requires k < |es| && Indexed4(es[..k], hosts4, nets4) && Host4(es[k]) && es[k].sv4.addr in hosts4
    ensures HasPair(es, SameV4)
  {
    var d := hosts4[es[k].sv4.addr];
    var i :| 0 <= i < k && es[..k][i] == d;
    PairAt(es, i, k, SameV4);
  }

  lemma PrefixTwice(es: seq<Entry>, k: nat, hosts4: map<Addr4, Entry>, nets4: seq<Entry>)
    requires k < |es| && Indexed4(es[..k], hosts4, nets4)
    requires exists i :: 0 <= i < |nets4| && !nets4[i].PoolRange? && V4(nets4[i]) == V4(es[k])
    ensures HasPair(es, SameV4)
  {
    var m :| 0 <= m < |nets4| && !nets4[m].PoolRange? && V4(nets4[m]) == V4(es[k]);
    var i :| 0 <= i < k && es[..k][i] == nets4[m];
    PairAt(es, i, k, SameV4);
  }

  /** Only static entries can share their IPv4 prefix with another static one or with the pool. */
  lemma NetIsNew(es: seq<Entry>, k: nat, hosts4: map<Addr4, Entry>, nets4: seq<Entry>)
    requires k < |es| && (forall i :: 0 <= i < |es| ==> ValidEntry(es[i])) && !HasPair(es, BothNat64) && !Host4(es[k])
    requires Indexed4(es[..k], hosts4, nets4)
    requires es[k].Static? ==> forall i :: 0 <= i < |nets4| ==> nets4[i].PoolRange? || V4(nets4[i]) != V4(es[k])
    ensures forall d :: d in es[..k] && Host4(d) ==> !SameV4(d, es[k])
    ensures forall d :: d in nets4 && !d.PoolRange? && SameV4(d, es[k]) ==> es[k].PoolRange?
  {
    hide Masked4, Masked6, ValidIPv6, Descending;
    var e := es[k];
    assert ValidEntry(e);
    forall d | d in es[..k]
      ensures ValidEntry(d) && (Host4(d) ==> !SameV4(d, e))
              && (e.Nat64? && SameV4(d, e) ==> d.PoolRange?)
    {
      var i :| 0 <= i < k && es[..k][i] == d;
      assert ValidEntry(es[i]);
      assert !BothNat64(es[i], es[k]);
    }
  }

  lemma AppendDescends(nets4: seq<Entry>, es: seq<Entry>, k: nat)
    requires k < |es| && Descending(es, Length4) && Descending(nets4, Length4)
    requires forall d, i :: d in nets4 && k <= i < |es| ==> Length4(d) >= Length4(es[i])
    ensures Descending(nets4 + [es[k]], Length4)
    ensures forall d, i :: d in nets4 + [es[k]] && k < i < |es| ==> Length4(d) >= Length4(es[i])
  {
  }

  /** The last loop of Build, over the registered entries with the longest IPv6 prefix first. */
  method Index6(es: seq<Entry>) returns (ok: bool, hosts6: map<Addr6, Entry>, nets6: seq<Entry>)
    requires forall i :: 0 <= i < |es| ==> Registered6(es[i])
    ensures ok <==> !HasPair(es, Overlapping)
    ensures ok ==> Indexed6(es, hosts6, nets6)
  {
    hide Indexed6, HasPair, Overlaps6;
    ok, hosts6, nets6 := true, map[], [];
    assert es[..0] == [];
    StartIndex6();
    for i := 0 to |es|
      invariant Indexed6(es[..i], hosts6, nets6)
    {
      var e := es[i];
      assert es[..i + 1] == es[..i] + [e];
      var clash := OverlapsEarlier(es[..i], e);
      if clash {
        ghost var k :| 0 <= k < i && Overlapping(es[..i][k], e);
        PairAt(es, k, i, Overlapping);
        return false, hosts6, nets6;
      }
      if e.Static? && e.sv6.bits == 128 {
        AddHost6(es[..i], e, hosts6, nets6);
        hosts6 := hosts6[e.sv6.addr := e];
      } else {
        AddNet6(es[..i], e, hosts6, nets6);
        nets6 := nets6 + [e];
      }
    }
    assert es[..|es|] == es;
    IndexedDisjoint(es, hosts6, nets6);
  }

  lemma StartIndex6()
    ensures Indexed6([], map[], [])
  {
  }

  lemma IndexedDisjoint(es: seq<Entry>, hosts6: map<Addr6, Entry>, nets6: seq<Entry>)
    requires Indexed6(es, hosts6, nets6)
    ensures !HasPair(es, Overlapping)
  {
  }

  // ----- Build -----

  class Builder {
    const strict: bool
    var entries: seq<Entry>
    var pool: Pool?

    ghost predicate Valid()
      reads this
    {
      && ValidEntries(entries)
      && (pool == null ==> forall i :: 0 <= i < |entries| ==> !entries[i].PoolRange?)
      && (pool != null ==> ValidParams(pool.c) && PoolEntry(pool.c) in entries)
    }

    constructor (strict: bool)
      ensures Valid() && entries == [] && pool == null && this.strict == strict
    {
      this.strict, entries, pool := strict, [], null;
    }

    /** AddPrefix: at most one, well-formed and not reserved. */
    method AddPrefix(p: Prefix6) returns (ok: bool)
      requires Valid()
      modifies this`entries
      ensures Valid()
      ensures ok <==> ValidNat64(p) && forall i :: 0 <= i < |old(entries)| ==> !old(entries)[i].Nat64?
      ensures entries == if ok then old(entries) + [Nat64(p)] else old(entries)
    {
      hide ValidNat64, ValidStatic, Masked4;
      if !ValidNat64(p) {
        return false;
      }
      for i := 0 to |entries|
        invariant forall k :: 0 <= k < i ==> !entries[k].Nat64?
      {
        if entries[i].Nat64? {
          return false;
        }
      }
      entries := entries + [Nat64(p)];
      assert pool != null ==> PoolEntry(pool.c) in old(entries);
      return true;
    }

    method AddStatic(v4: Prefix4, v6: Prefix6) returns (ok: bool)
      requires Valid()
      modifies this`entries
      ensures Valid()
      ensures ok <==> ValidStatic(v4, v6)
      ensures entries == if ok then old(entries) + [Static(v4, v6, false)] else old(entries)
    {
      hide ValidNat64, ValidStatic, Masked4;
      if !ValidStatic(v4, v6) {
        return false;
      }
      entries := entries + [Static(v4, v6, false)];
      assert pool != null ==> PoolEntry(pool.c) in old(entries);
      return true;
    }

    /** AddSelf: a derived own address registers its IPv4 side only. */
    method AddSelf(v4: Addr4, v6: Addr6, derived: bool) returns (ok: bool)
      requires Valid()
      modifies this`entries
      ensures Valid()
      ensures ok <==> if derived then !ClassifyIPv4(v4).Invalid? else ValidStatic(Prefix4(v4, 32), Prefix6(v6, 128))
      ensures entries == if ok then old(entries) + [Static(Prefix4(v4, 32), Prefix6(v6, 128), derived)]
              else old(entries)
    {
      hide ValidNat64, ValidStatic, Masked4, ClassifyIPv4;
      if !derived {
        ok := AddStatic(Prefix4(v4, 32), Prefix6(v6, 128));
        return;
      }
      if ClassifyIPv4(v4).Invalid? {
        return false;
      }
      entries := entries + [Static(Prefix4(v4, 32), Prefix6(v6, 128), true)];
      assert pool != null ==> PoolEntry(pool.c) in old(entries);
      return true;
    }

    /** SetPool: at most one; a pool is made by NewPool, which has checked its prefix. */
    method SetPool(p: Pool) returns (ok: bool)
      requires Valid() && ValidParams(p.c) && !ClassifyIPv4(Enc32(p.c.base)).Invalid?
      modifies this`entries, this`pool
      ensures Valid()
      ensures ok <==> old(pool) == null
      ensures if ok then pool == p && entries == old(entries) + [PoolEntry(p.c)]
              else pool == old(pool) && entries == old(entries)
    {
      hide ValidNat64, ValidStatic, ClassifyIPv4, Enc32, Get32;
      if pool != null {
        return false;
      }
      pool := p;
      Val4Of(p.c.base);
      entries := entries + [PoolEntry(p.c)];
      return true;
    }

    /**
     * Build fails exactly if two entries clash. Otherwise it returns the table of the entries, and the pool leaves
     * alone what the table maps by other means.
     */
    method Build() returns (r: AddressTable?)
      requires Valid() && (pool != null ==> pool.Valid())
      modifies (if pool == null then {} else {pool})`reserved
      ensures r == null <==> Conflicting(entries)
      ensures r != null ==> fresh(r) && Accepted(r.t, entries) && r.t.strict == strict && r.pool == pool
      ensures r != null && pool != null ==> forall v: nat :: pool.reserved(v) == ReservedBy(r.t, pool.c, v)
      ensures r == null && pool != null ==> pool.reserved == old(pool.reserved)
      ensures r != null ==> r.Valid() && (pool == null || old(pool.Model()) == map[] ==> r.Tidy())
    {
      hide Conflicting, TableOf, ValidEntries, PoolEntry, ReservedBy, BitmapOk, IndexesOk, WellFormed, Low, Pool.Model;
      var indexed := BuildIndexes(strict, entries);
      if indexed.None? {
        return null;
      }
      var t := indexed.value;
      if pool != null {
        var c := pool.c;
        pool.Reserve((v: nat) => ReservedBy(t, c, v));
      }
      r := new AddressTable(t, pool);
      TableParts(t, entries);
    }
  }

  method BuildIndexes(strict: bool, entries: seq<Entry>) returns (r: Option<Table>)
    requires ValidEntries(entries)
    ensures r.None? <==> Conflicting(entries)
    ensures r.Some? ==> TableOf(r.value, entries) && r.value.strict == strict
  {
    hide ValidEntry, Conflicting, HasPair, Indexed4, Indexed6, Registers, Descending, TableOf;
    var sorted := SortDescending(entries, Length4);
    SortedEntries(entries, sorted);
    ConflictKinds(entries);
    var ok, hosts4, nets4, v6s, poolEntry := Index4(sorted);
    if !ok {
      return None;
    }
    if poolEntry.Some? {
      var dup := PoolIsStatic(nets4, poolEntry.value);
      if dup {
        PoolPrefixTwice(sorted, hosts4, nets4, poolEntry.value);
        return None;
      }
    }
    NoneTwice(sorted, hosts4, nets4, poolEntry);
    var sorted6 := SortDescending(v6s, Length6);
    SameMembers(v6s, sorted6);
    RegistersOnly(sorted, v6s, sorted6);
    OverlappingSymmetric();
    PairPermutes(v6s, sorted6, Overlapping);
    RegistersPairs(sorted, v6s);
    var ok6, hosts6, nets6 := Index6(sorted6);
    if !ok6 {
      return None;
    }
    var t := Table(strict, hosts4, nets4, hosts6, nets6);
    IndexesAreTable(entries, sorted, v6s, sorted6, t);
    return Some(t);
  }

  lemma TableParts(t: Table, es: seq<Entry>)
    requires TableOf(t, es)
    ensures WellFormed(t) && (forall a :: a in t.hosts4 ==> t.hosts4[a].Static?)
            && (forall a :: a in t.hosts6 ==> t.hosts6[a].Static?)
    ensures (forall i :: 0 <= i < |es| ==> !es[i].PoolRange?) ==>
              forall i :: 0 <= i < |t.nets4| ==> !t.nets4[i].PoolRange?
  {
  }

  /** What sorting keeps. */
  lemma SortedEntries(es: seq<Entry>, s: seq<Entry>)
    requires ValidEntries(es) && multiset(s) == multiset(es)
    ensures (forall i :: 0 <= i < |s| ==> ValidEntry(s[i])) && !HasPair(s, BothNat64) && !HasPair(s, BothPool)
    ensures HasPair(s, SameV4) <==> HasPair(es, SameV4)
    ensures HasPair(s, Overlapping) <==> HasPair(es, Overlapping)
    ensures forall e :: e in s <==> e in es
  {
    hide ValidEntry, Overlaps6;
    SameMembers(s, es);
    forall i | 0 <= i < |s| ensures ValidEntry(s[i]) { assert s[i] in es; }
    assert Symmetric(BothNat64) && Symmetric(BothPool);
    PairPermutes(s, es, BothNat64);
    PairPermutes(s, es, BothPool);
    SameV4Symmetric();
    PairPermutes(s, es, SameV4);
    OverlappingSymmetric();
    PairPermutes(s, es, Overlapping);
  }

  lemma PoolPrefixTwice(es: seq<Entry>, hosts4: map<Addr4, Entry>, nets4: seq<Entry>, pool: Entry)
    requires Indexed4(es, hosts4, nets4) && pool in es && pool.PoolRange?
    requires exists i :: 0 <= i < |nets4| && nets4[i].Static? && V4(nets4[i]) == V4(pool)
    ensures HasPair(es, SameV4)
  {
    var m :| 0 <= m < |nets4| && nets4[m].Static? && V4(nets4[m]) == V4(pool);
    var i :| 0 <= i < |es| && es[i] == nets4[m];
    var j :| 0 <= j < |es| && es[j] == pool;
    if i < j { PairAt(es, i, j, SameV4); } else { PairAt(es, j, i, SameV4); }
  }

  lemma NoneTwice(es: seq<Entry>, hosts4: map<Addr4, Entry>, nets4: seq<Entry>, pool: Option<Entry>)
    requires Indexed4(es, hosts4, nets4) && (forall i :: 0 <= i < |es| ==> ValidEntry(es[i])) && !HasPair(es, BothPool)
    requires pool.Some? ==>
               && pool.value in es && pool.value.PoolRange?
               && forall i :: 0 <= i < |nets4| && nets4[i].Static? ==> V4(nets4[i]) != V4(pool.value)
    requires pool.None? ==> forall i :: 0 <= i < |es| ==> !es[i].PoolRange?
    ensures !HasPair(es, SameV4)
  {
    forall i, j | 0 <= i < j < |es| ensures !SameV4(es[i], es[j]) {
      assert ValidEntry(es[i]) && ValidEntry(es[j]) && !BothPool(es[i], es[j]);
      if es[i].PoolRange? { OnlyPoolAt(es, pool.value, i); }
      if es[j].PoolRange? { OnlyPoolAt(es, pool.value, j); }
    }
  }

  lemma OnlyPoolAt(es: seq<Entry>, e: Entry, i: nat)
    requires !HasPair(es, BothPool) && e in es && e.PoolRange? && i < |es| && es[i].PoolRange?
    ensures es[i] == e
  {
    var k :| 0 <= k < |es| && es[k] == e;
    assert k < i ==> !BothPool(es[k], es[i]);
    assert i < k ==> !BothPool(es[i], es[k]);
  }

  lemma RegistersOnly(es: seq<Entry>, v6s: seq<Entry>, sorted6: seq<Entry>)
    requires Registers(es, v6s) && forall e :: e in v6s <==> e in sorted6
    ensures forall i :: 0 <= i < |sorted6| ==> Registered6(sorted6[i])
  {
    forall i | 0 <= i < |sorted6| ensures Registered6(sorted6[i]) { assert sorted6[i] in v6s; }
  }

  lemma RegistersPairs(es: seq<Entry>, v6s: seq<Entry>)
    requires Registers(es, v6s)
    ensures HasPair(v6s, Overlapping) <==> HasPair(es, Overlapping)
  {
  }

  lemma IndexesAreTable(es: seq<Entry>, sorted: seq<Entry>, v6s: seq<Entry>, sorted6: seq<Entry>, t: Table)
    requires (forall e :: e in sorted <==> e in es) && Indexed4(sorted, t.hosts4, t.nets4)
             && Descending(t.nets4, Length4)
    requires Registers(sorted, v6s) && (forall e :: e in v6s <==> e in sorted6) && Indexed6(sorted6, t.hosts6, t.nets6)
    ensures TableOf(t, es)
  {
    hide HasPair;
    forall i | 0 <= i < |es| ensures es[i] in sorted {}
    forall i | 0 <= i < |es| && Registered6(es[i]) ensures es[i] in sorted6 { assert es[i] in sorted; }
  }
}
