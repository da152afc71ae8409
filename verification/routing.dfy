/** Routing headers with segments left: which packets are refused for them, and what the refusal points to. */
module Routing {
  import opened Bytes
  import opened Packet

  /** A routing header begins at offset k of the bytes after the fixed header. */
  ghost predicate RoutingAt(data: seq<Byte>, first: Byte, k: nat) {
    Reaches(data, 0, first, k, 43)
  }

  /** Section 4.4 of RFC 8200: the fourth octet counts the segments left. */
  function Left(data: seq<Byte>, k: nat): Byte {
    if k + 3 < |data| then data[k + 3] else 0
  }

  lemma {:induction false} ReachesOn(data: seq<Byte>, at: nat, first: Byte, end: nat, next: Byte)
    requires Reaches(data, at, first, end, next)
    ensures at <= end && end % 8 == at % 8
    decreases |data| - at
  {
    if !(at == end && first == next) {
      ReachesOn(data, at + (data[at + 1] as int + 1) * 8, data[at], end, next);
    }
  }

  lemma {:induction false} PointerGrows(data: seq<Byte>, at: nat, proto: Byte, left: nat, ptr: nat)
    requires at <= |data| && WalkExtensions(data, at, proto, left, ptr).Walk?
    ensures WalkExtensions(data, at, proto, left, ptr).segPtr >= ptr
    ensures WalkExtensions(data, at, proto, left, ptr).segPtr % 8 == ptr % 8
    decreases |data| - at
  {
    if Extension(proto) {
      var hl := ExtensionLen(data, at);
      var left' := if proto == 43 then data[at + 3] else left;
      PointerGrows(data, at + hl, data[at], left', if left' == 0 then ptr + hl else ptr);
    }
  }

  lemma ReachesSplit(data: seq<Byte>, at: nat, first: Byte)
    requires MoreFollows(first) && at + 2 <= |data| && at + (data[at + 1] as int + 1) * 8 <= |data|
    ensures var n, next := at + (data[at + 1] as int + 1) * 8, data[at];
            forall k: nat ::
              Reaches(data, at, first, k, 43) <==> (at == k && first == 43) || Reaches(data, n, next, k, 43)
    ensures var n, next := at + (data[at + 1] as int + 1) * 8, data[at];
            forall k: nat :: Reaches(data, n, next, k, 43) ==> k >= n
  {
    var n, next := at + (data[at + 1] as int + 1) * 8, data[at];
    forall k: nat | Reaches(data, n, next, k, 43) ensures k >= n {
      ReachesOn(data, n, next, k, 43);
    }
  }

  lemma ReachedToo(data: seq<Byte>, at: nat, first: Byte, k: nat)
    requires MoreFollows(first) && at + 2 <= |data| && at + (data[at + 1] as int + 1) * 8 <= |data|
    requires Reaches(data, at + (data[at + 1] as int + 1) * 8, data[at], k, 43)
    ensures Reaches(data, at, first, k, 43) && k > at
  {
    ReachesOn(data, at + (data[at + 1] as int + 1) * 8, data[at], k, 43);
  }

  ghost predicate NoRouting(data: seq<Byte>, at: nat, proto: Byte) {
    forall k: nat :: !Reaches(data, at, proto, k, 43)
  }

  ghost predicate LastRouting(data: seq<Byte>, at: nat, proto: Byte, k: nat) {
    Reaches(data, at, proto, k, 43) && forall m: nat :: Reaches(data, at, proto, m, 43) ==> m <= k
  }

  lemma {:induction false} NoneDecides(data: seq<Byte>, at: nat, proto: Byte, left: nat, ptr: nat)
    requires at <= |data| && WalkExtensions(data, at, proto, left, ptr).Walk? && NoRouting(data, at, proto)
    ensures WalkExtensions(data, at, proto, left, ptr).segLeft == left
    decreases |data| - at
  {
    if Extension(proto) {
      var hl := ExtensionLen(data, at);
      ReachesSplit(data, at, proto);
      assert !Reaches(data, at, proto, at, 43);
      NoneDecides(data, at + hl, data[at], left, if left == 0 then ptr + hl else ptr);
    }
  }

  /** The count that decides is that of the last routing header. */
  lemma {:induction false} LastDecides(data: seq<Byte>, at: nat, proto: Byte, left: nat, ptr: nat, k: nat)
    requires at <= |data| && WalkExtensions(data, at, proto, left, ptr).Walk? && LastRouting(data, at, proto, k)
    ensures WalkExtensions(data, at, proto, left, ptr).segLeft == Left(data, k)
    decreases |data| - at
  {
    var hl := ExtensionLen(data, at);
    var left' := if proto == 43 then data[at + 3] else left;
    var ptr' := if left' == 0 then ptr + hl else ptr;
    ReachesSplit(data, at, proto);
    if at == k && proto == 43 {
      var n, next := at + hl, data[at];
      forall m: nat ensures !Reaches(data, n, next, m, 43) {
        if Reaches(data, n, next, m, 43) { ReachedToo(data, at, proto, m); }
      }
      NoneDecides(data, at + hl, data[at], left', ptr');
    } else {
      LastDecides(data, at + hl, data[at], left', ptr', k);
    }
  }

  /** Once segments are left, the pointer stands still exactly as long as they are. */
  lemma {:induction false} PointerStands(data: seq<Byte>, at: nat, proto: Byte, left: nat, ptr: nat)
    requires at <= |data| && WalkExtensions(data, at, proto, left, ptr).Walk? && left != 0
    ensures WalkExtensions(data, at, proto, left, ptr).segPtr == ptr <==>
              forall k: nat :: Reaches(data, at, proto, k, 43) ==> Left(data, k) != 0
    decreases |data| - at
  {
    if Extension(proto) {
      var hl := ExtensionLen(data, at);
      var left' := if proto == 43 then data[at + 3] else left;
      ReachesSplit(data, at, proto);
      if left' == 0 {
        PointerGrows(data, at + hl, data[at], left', ptr + hl);
        assert Reaches(data, at, proto, at, 43) && Left(data, at) == 0;
      } else {
        PointerStands(data, at + hl, data[at], left', ptr);
      }
    }
  }

  /** k is the first routing header with segments left, from `at` on. */
  ghost predicate FirstLeft(data: seq<Byte>, at: nat, proto: Byte, k: nat) {
    && Reaches(data, at, proto, k, 43) && Left(data, k) != 0
    && forall m: nat :: Reaches(data, at, proto, m, 43) && m < k ==> Left(data, m) == 0
  }

  ghost predicate AllLeftAfter(data: seq<Byte>, at: nat, proto: Byte, k: nat) {
    forall m: nat :: Reaches(data, at, proto, m, 43) && m > k ==> Left(data, m) != 0
  }

  /** The pointer follows the walk up to the first routing header with segments left. */
  lemma {:induction false} PointerFollows(data: seq<Byte>, at: nat, proto: Byte, ptr: nat) returns (k: nat)
    requires at <= |data| && WalkExtensions(data, at, proto, 0, ptr).Walk?
    requires WalkExtensions(data, at, proto, 0, ptr).segLeft != 0
    ensures FirstLeft(data, at, proto, k) && at <= k
    ensures WalkExtensions(data, at, proto, 0, ptr).segPtr == ptr + (k - at) <==> AllLeftAfter(data, at, proto, k)
    decreases |data| - at
  {
    var hl := ExtensionLen(data, at);
    ReachesSplit(data, at, proto);
    if proto == 43 && data[at + 3] != 0 {
      k := at;
      PointerStands(data, at + hl, data[at], data[at + 3], ptr);
    } else {
      k := PointerFollows(data, at + hl, data[at], ptr + hl);
    }
  }

  /** A packet is refused for its routing headers exactly if there is one and the last of them has segments left. */
  lemma RefusedExactly(raw: seq<Byte>)
    requires !Parse6(raw).Bad6?
    ensures |raw| >= IP6_HDR
    ensures Parse6(raw).Routed6? <==>
              exists k: nat :: LastRouting(Body6(raw), 0, raw[6], k) && Left(Body6(raw), k) != 0
  {
    hide Reaches;
    var body := Body6(raw);
    var w := WalkExtensions(body, 0, raw[6], 0, IP6_HDR);
    assert Parse6(raw).Routed6? <==> w.segLeft != 0;
    if NoRouting(body, 0, raw[6]) {
      NoneDecides(body, 0, raw[6], 0, IP6_HDR);
    } else {
      var k := FindLast(body, 0, raw[6]);
      LastDecides(body, 0, raw[6], 0, IP6_HDR, k);
      forall m: nat | LastRouting(body, 0, raw[6], m) ensures m == k {}
    }
  }

  lemma {:induction false} FindLast(data: seq<Byte>, at: nat, proto: Byte) returns (k: nat)
    requires at <= |data| && !NoRouting(data, at, proto)
    ensures LastRouting(data, at, proto, k)
    decreases |data| - at
  {
    if MoreFollows(proto) && at + 2 <= |data| && at + (data[at + 1] as int + 1) * 8 <= |data| {
      ReachesSplit(data, at, proto);
      var n, next := at + (data[at + 1] as int + 1) * 8, data[at];
      if NoRouting(data, n, next) {
        k := at;
      } else {
        k := FindLast(data, n, next);
      }
    } else {
      k := at;
    }
  }

  /** The octet of raw that counts the segments left of some routing header. */
  ghost predicate CountsSegments(raw: seq<Byte>, octet: nat)
    requires |raw| >= IP6_HDR
  {
    exists k: nat :: RoutingAt(Body6(raw), raw[6], k) && octet == IP6_HDR + k + 3
  }

  /**
   * The pointer of the refusal is never the octet that counts the segments. It is the one behind that octet, in the
   * first routing header with segments left, exactly if no later routing header is without.
   */
  lemma PointerExactly(raw: seq<Byte>) returns (k: nat)
    requires Parse6(raw).Routed6?
    ensures |raw| >= IP6_HDR && FirstLeft(Body6(raw), 0, raw[6], k)
    ensures !CountsSegments(raw, Parse6(raw).ptr)
    ensures Parse6(raw).ptr == IP6_HDR + k + 4 <==> AllLeftAfter(Body6(raw), 0, raw[6], k)
  {
    hide Reaches, FirstLeft, AllLeftAfter, WalkExtensions, Body6;
    var body := Body6(raw);
    k := PointerFollows(body, 0, raw[6], IP6_HDR);
    PointerGrows(body, 0, raw[6], 0, IP6_HDR);
    forall m: nat | RoutingAt(body, raw[6], m) ensures m % 8 == 0 {
      ReachesOn(body, 0, raw[6], m, 43);
    }
  }
}
