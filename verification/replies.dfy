/**
 * What the pool is for: a packet from an unknown IPv6 host leaves with an address of its own, and replies to it arrive.
 */
module Replies {
  import opened Bytes
  import opened NetUtil
  import opened Prefixes
  import opened Packet
  import opened Checksum
  import opened PoolSpec
  import opened Xlate
  import opened Table
  import opened TableLaws
  import opened AddressMap
  import opened Mappers
  import opened Headers
  import opened TransportLaws
  import opened IcmpErrors
  import opened EndToEnd
  import RT = RoundTrip

  /** The pool of an accepted table, filled through it. */
  ghost predicate Behind(tb: Table, es: seq<Entry>, pv: PoolView, reserved: nat -> bool) {
    && Accepted(tb, es) && DerivedEmbedded(es) && PoolFits(es, pv) && WellFormed(tb)
    && pv.WithPool? && GoodView(pv) && AllProper(tb, pv.c, pv.s)
    && forall v: nat :: reserved(v) == ReservedBy(tb, pv.c, v)
  }

  lemma UsedStaysProper(tb: Table, c: Params, s: State, s': State, now: int)
    requires WellFormed(tb) && ValidParams(c) && Inv(c, s) && AllProper(tb, c, s)
             && Used(WithPool(c, s), WithPool(c, s'), now)
    ensures Inv(c, s') && AllProper(tb, c, s')
  {
    hide ReservedBy, Lookup6, ValidIPv6, ValidParams, Max;
    forall off | off in s' ensures Proper(tb, c, off, s'[off]) {
      assert Proper(tb, c, off, s[off]);
    }
  }

  /** The host that asked holds the address it got, from now on, and the table leaves that address to the pool. */
  lemma AssignedHolds(tb: Table, es: seq<Entry>, pv: PoolView, w: PoolView, x: Addr6, now: int, reserved: nat -> bool,
                      a: Addr4) returns (off: nat)
    requires Behind(tb, es, pv, reserved) && Asks(tb, pv, x, true) && ValidIPv6(x)
             && Assigned(pv, w, x, now, reserved, Mapped(a))
    ensures w.WithPool? && w.c == pv.c && Inv(w.c, w.s) && AllProper(tb, w.c, w.s) && Holds(w.s, off, x, now)
    ensures Val4(a) == pv.c.base + off && Lookup4(tb, a) == Some(PoolEntry(pv.c))
  {
    hide Accepted, DerivedEmbedded, PoolFits, ReservedBy, Lookup4, Lookup6, ValidIPv6, ValidParams, Inv, AllProper;
    hide Assigns, WellFormed, Max, Size, Enc32, Touched, SameMaps;
    var mid: State :| Used(pv, WithPool(pv.c, mid), now) && Gets(pv.c, mid, x, now, reserved, w.s, Mapped(a));
    UsedStaysProper(tb, pv.c, pv.s, mid, now);
    off := Val4(a) - pv.c.base;
    AssignKeepsInv(pv.c, mid, x, now, reserved, w.s, Some(off));
    AssignStaysProper(tb, pv.c, mid, x, now, reserved, w.s, Some(off));
    AssignOutcome(pv.c, mid, x, now, reserved, w.s, Some(off));
    LeftToPool(tb, pv.c, w.s, off);
    EncodeVal4(a);
  }

  lemma LeftToPool(tb: Table, c: Params, s: State, off: nat)
    requires WellFormed(tb) && ValidParams(c) && AllProper(tb, c, s) && off in s && c.base + off < 0x1_0000_0000
    ensures Lookup4(tb, Enc32(c.base + off)) == Some(PoolEntry(c))
  {
    hide Lookup4, Lookup6, ValidIPv6, Enc32, ValidParams;
    assert Proper(tb, c, off, s[off]);
  }

  /** A host that holds an address of the pool is who the address maps to. */
  lemma HolderMaps(tb: Table, c: Params, s: State, off: nat, x: Addr6, now: int, a: Addr4)
    requires ValidParams(c) && Inv(c, s) && Holds(s, off, x, now) && Val4(a) == c.base + off
             && Lookup4(tb, a) == Some(PoolEntry(c))
    ensures Map4to6(tb, WithPool(c, s), a) == Mapped(x)
  {
    hide Lookup4, Inv, ValidParams, Enc32, Bits.Low;
    OffsetBack(c, s, off);
    EncodeVal4(a);
  }

  /** q is from src to dst, and its transport checksum is as good as that of p. */
  ghost predicate Same4(p: Pkt6, q: seq<Byte>, src: Addr4, dst: Addr4) {
    && |q| >= IP4_HDR && |p.raw| >= IP6_HDR && q[12..16] == src && q[16..20] == dst && q[9] == Protocol(p.proto)
    && (Repairable(p.proto, p.data) && p.frag.None? ==>
          (Passes6(p.data, p.raw[8..40], p.proto) <==> Passes4(q[20..], q[12..20], p.proto)))
  }

  /** One such packet leaves for p. */
  ghost predicate LeavesAs4(t: Env, p: Pkt6, src: Addr4, dst: Addr4) {
    ValidEnv(t) && exists q :: Translate(t, p.raw) == [q] && Same4(p, q, src, dst)
  }

  lemma Same4Holds(t: Env, p: Pkt6, src: Addr4, dst: Addr4, data: seq<Byte>)
    requires WellParsed6(p) && p.raw[7] >= 2 && Payload6to4(t, p, src + dst) == Rewritten(data)
    ensures Same4(p, Seal4(Hdr6to4(p, |p.data|, p.raw[7] - 1, src, dst, t.ident(0))) + data, src, dst)
  {
    hide Hdr6to4, Seal4, Payload6to4, Verifies, Passes4, Passes6, WellParsedFrag, Get16;
    Hdr6to4Fields(p, |p.data|, p.raw[7] - 1, src, dst, t.ident(0), data);
    var q := Seal4(Hdr6to4(p, |p.data|, p.raw[7] - 1, src, dst, t.ident(0))) + data;
    assert q[12..16] == q[12..20][..4] == src && q[16..20] == q[12..20][4..] == dst;
    if Repairable(p.proto, p.data) && p.frag.None? {
      Payload6to4KeepsStatus(t, p, src + dst, []);
      assert p.data + [] == p.data && data + [] == data;
    }
  }

  lemma ForwardedAs4(t: Env, p: Pkt6, src: Addr4, dst: Addr4)
    requires Parse6(p.raw) == Good6(p) && RT.Forwardable6(t, p) && IP6_HDR + p.hdrLen + |p.data| <= t.mtu
    requires t.map6(0, p.raw[24..40], false) == Mapped(dst) && t.map6(1, p.raw[8..24], true) == Mapped(src)
    requires Payload6to4(t, p, src + dst).Rewritten?
    ensures LeavesAs4(t, p, src, dst)
  {
    hide Parse6, Translate, Hdr6to4, Seal4, Payload6to4, Same4, Accepted6, WellParsed6, Verifies;
    var data := Payload6to4(t, p, src + dst).data;
    RT.ForwardWhole6(t, p, src, dst, data);
    Same4Holds(t, p, src, dst, data);
  }

  /** One IPv6 packet leaves for p, from src to dst, and its transport checksum is as good as that of p. */
  ghost predicate LeavesAs6(t: Env, p: Pkt4, src: Addr6, dst: Addr6) {
    && ValidEnv(t) && WellParsed4(p)
    && exists q :: |q| >= IP6_HDR && Translate(t, p.raw) == [q] && q[8..24] == src && q[24..40] == dst
         && q[6] == NextHeader(p.proto)
                   && (Repairable(p.proto, p.data) ==>
                         (Passes4(p.data, p.raw[12..20], p.proto) <==> Passes6(q[40..], q[8..40], p.proto)))
  }

  lemma ForwardedAs6(t: Env, p: Pkt4, src: Addr6, dst: Addr6)
    requires Parse4(p.raw) == Good4(p) && RT.Forwardable4(t, p) && Whole4(t, p) && !TooBig4(t, p)
    requires t.map4(0, p.raw[16..20]) == Mapped(dst) && t.map4(1, p.raw[12..16]) == Mapped(src)
    requires Payload4to6(t, p, src + dst).Rewritten?
    ensures LeavesAs6(t, p, src, dst)
  {
    hide Parse4, Translate, Hdr6, Payload4to6, Verifies, Passes4, Passes6, Accepted4, TooBig4;
    var data := Payload4to6(t, p, src + dst).data;
    RT.ForwardWhole4(t, p, src, dst, data);
    Hdr6Fields(p.raw[1], |data|, NextHeader(p.proto), p.raw[8] - 1, src, dst, data);
    if Repairable(p.proto, p.data) {
      Payload4to6KeepsStatus(t, p, src + dst, []);
      assert p.data + [] == p.data && data + [] == data;
    }
  }

  /** p is a packet from x that t translates to IPv4, with the address a for its source. */
  ghost predicate Sends(t: Env, tb: Table, pv: PoolView, p: Pkt6, x: Addr6, a: Addr4, dst: Addr4) {
    && WellFormed(tb) && GoodView(pv) && ServedBy(t, tb, pv)
    && Parse6(p.raw) == Good6(p) && RT.Forwardable6(t, p) && IP6_HDR + p.hdrLen + |p.data| <= t.mtu && p.raw[8..24] == x
    && Map6to4(tb, pv, p.raw[24..40]) == Mapped(dst) && t.map6(1, x, true) == Mapped(a)
    && Payload6to4(t, p, a + dst).Rewritten?
  }

  /** p is a packet to a that t translates to IPv6, if a is mapped; its source is mapped to src. */
  ghost predicate Answers(t: Env, tb: Table, pv: PoolView, p: Pkt4, a: Addr4, src: Addr6) {
    && WellFormed(tb) && GoodView(pv) && ServedBy(t, tb, pv)
    && Parse4(p.raw) == Good4(p) && RT.Forwardable4(t, p) && Whole4(t, p) && !TooBig4(t, p)
    && p.raw[16..20] == a && Map4to6(tb, pv, p.raw[12..16]) == Mapped(src)
    && forall dst: Addr6 :: Payload4to6(t, p, src + dst).Rewritten?
  }

  /** x asked the pool for an address and got a. */
  ghost predicate NewHost(tb: Table, pv: PoolView, w: PoolView, x: Addr6, now: int, reserved: nat -> bool, a: Addr4) {
    WellFormed(tb) && Asks(tb, pv, x, true) && Assigned(pv, w, x, now, reserved, Mapped(a))
  }

  /** A run of the pool from w to w', maintained within the short lease after now. */
  ghost predicate Lasts(w: PoolView, w': PoolView, states: seq<State>, steps: seq<Step>, now: int, minLease: int) {
    && w.WithPool? && ValidParams(w.c) && Run(w.c, states, steps) && states[0] == w.s
       && w' == WithPool(w.c, states[|steps|])
    && forall k :: 0 <= k < |steps| ==> WithinLease(steps[k], now, minLease)
  }

  lemma StillMapped(tb: Table, es: seq<Entry>, x: Addr6, pv: PoolView, w: PoolView, w': PoolView, now: int,
                    reserved: nat -> bool, a: Addr4,
                    states: seq<State>, steps: seq<Step>, minLease: int)
    requires Behind(tb, es, pv, reserved) && ValidIPv6(x) && NewHost(tb, pv, w, x, now, reserved, a)
    requires Lasts(w, w', states, steps, now, minLease)
    ensures Map4to6(tb, w', a) == Mapped(x)
  {
    hide Behind, Asks, Assigned, Map4to6, Next, WithinLease, Holds, Inv, ValidParams, Lookup4, WellFormed, Parse6;
    hide ValidIPv6, AllProper;
    var off := AssignedHolds(tb, es, pv, w, x, now, reserved, a);
    RunKeepsInv(w.c, states, steps, |steps|);
    LeaseKept(w.c, states, steps, |steps|, off, x, now, minLease);
    HolderMaps(tb, w.c, states[|steps|], off, x, now, a);
  }

  /**
   * A packet from an unknown IPv6 host leaves with the address that the pool assigned. Whatever happens to the pool
   * after that, as long as its maintenance comes within the short lease, a packet to that address goes to that host.
   */
  lemma ReplyArrives(tb: Table, es: seq<Entry>, t: Env, p: Pkt6, x: Addr6, dst: Addr4, pv: PoolView, w: PoolView,
                     now: int, reserved: nat -> bool,
                     a: Addr4, states: seq<State>, steps: seq<Step>, minLease: int, t': Env, w': PoolView, p': Pkt4,
                       src: Addr6)
    requires Behind(tb, es, pv, reserved) && Sends(t, tb, pv, p, x, a, dst) && NewHost(tb, pv, w, x, now, reserved, a)
    requires Lasts(w, w', states, steps, now, minLease) && Answers(t', tb, w', p', a, src)
    ensures LeavesAs4(t, p, a, dst) && LeavesAs6(t', p', src, x)
  {
    hide Behind, NewHost, Lasts, Map4to6, Map6to4, LeavesAs4, LeavesAs6, WellFormed, GoodView;
    hide Payload4to6, Payload6to4, Parse4, Parse6, Accepted4, Accepted6, TooBig4, Whole4, ValidEnv, ValidIPv6;
    SourceMay(p);
    StillMapped(tb, es, x, pv, w, w', now, reserved, a, states, steps, minLease);
    ForwardedAs4(t, p, a, dst);
    ForwardedAs6(t', p', src, x);
  }

  /** A reply from where the packet went is from the address the packet was for, exactly if that one owns its image. */
  lemma AnswerComesFrom(tb: Table, es: seq<Entry>, pv: PoolView, w: PoolView, y: Addr6, dst: Addr4)
    requires Accepted(tb, es) && DerivedEmbedded(es) && WellFormed(tb) && GoodView(pv) && GoodView(w) && PoolFits(es, w)
             && Clean(tb, w)
    requires Lookup6(tb, y).Some? && Map6to4(tb, pv, y) == Mapped(dst)
    ensures Map4to6(tb, w, dst) == Mapped(y) <==> Lookup4(tb, dst) == Lookup6(tb, y)
  {
    hide Map4to6, Accepted, DerivedEmbedded, PoolFits, Clean, Lookup4, Lookup6, JoinStatic4, Unembed, Inv, ValidParams;
    ReturnsExactly(tb, es, w, y, dst);
  }

  lemma SourceMay(p: Pkt6)
    requires Parse6(p.raw) == Good6(p)
    ensures |p.raw| >= IP6_HDR && ValidIPv6(p.raw[8..24])
  {
  }
}
