/** The engine's round: translate a batch of packets, hand the results to the device, recycle the buffers. */
module Engines {
  import opened Bytes
  import opened PoolSpec
  import opened Table
  import opened AddressMap
  import opened Mappers
  import opened Emitters
  import opened Translators
  import EndToEnd
  import opened TableLaws
  import opened PoolRuns

  /** The translator's surroundings are served by its table. */
  lemma Served(tr: Translator, pv: PoolView, r1: X.MapResult<Addr4>, ids: nat -> U16)
    requires WellFormed(tr.table.t) && GoodView(pv)
    ensures EndToEnd.ServedBy(tr.EnvOf(pv, r1, ids), tr.table.t, pv)
  {
    hide Map4to6, Map6to4, Translator.EnvOf, Asks;
    var t := tr.EnvOf(pv, r1, ids);
    forall k: nat, x: Addr6, allocate: bool | Map6to4(tr.table.t, pv, x).Mapped? || !allocate
      ensures t.map6(k, x, allocate) == Map6to4(tr.table.t, pv, x)
    {
      NoAsk(tr.table.t, pv, x);
      if allocate { assert t.map6(k, x, true) == Map6to4(tr.table.t, pv, x); }
    }
  }

  /** The input buffers are different from each other and from everything else. */
  ghost predicate Inputs(tr: Translator, bufs: seq<array<Byte>>, sizes: seq<nat>, em: Emitter)
    reads em, tr.table.pool
  {
    && |bufs| == |sizes| && Owned(tr.table) !! em.Held() + {em}
    && (forall i :: 0 <= i < |bufs| ==> Capacious(bufs[i]) && sizes[i] <= X.MAX_PACKET && tr.Separate(bufs[i], em))
    && (forall i, j :: 0 <= i < j < |bufs| ==> bufs[i] != bufs[j])
  }

  /** The bytes read into the buffers. */
  ghost predicate Holding(bufs: seq<array<Byte>>, sizes: seq<nat>, packets: seq<seq<Byte>>, from: nat)
    reads bufs
  {
    && |bufs| == |sizes| == |packets|
    && forall i :: from <= i < |bufs| ==>
           OFFSET + sizes[i] <= bufs[i].Length && bufs[i][OFFSET..OFFSET + sizes[i]] == packets[i]
  }

  /** One packet of a round: the pool as it was before it and after it, and the pool's answer for its source. */
  datatype Turn = Turn(before: PoolView, after: PoolView, answer: X.MapResult<Addr4>, now: int, random: (U16, U16),
                       packet: seq<Byte>)

  /** The pool did what the packet asks of it. */
  ghost predicate Proceeds(tr: Translator, hook: nat -> bool, u: Turn) {
    && WellFormed(tr.table.t) && GoodView(u.before)
    && Moved(tr.table.t, u.before, u.after, tr.Asked(u.before, u.packet), u.now, hook, u.answer)
  }

  /** The packets sent for it. */
  ghost function Sends(tr: Translator, u: Turn): seq<seq<Byte>>
    requires tr.Configured() && WellFormed(tr.table.t) && GoodView(u.before)
  {
    X.Translate(tr.EnvOf(u.before, u.answer, Idents(u.random.0, u.random.1)), u.packet)
  }

  /** A round: every packet finds the pool as the one before it left it. */
  ghost predicate Round(tr: Translator, hook: nat -> bool, turns: seq<Turn>, first: PoolView, last: PoolView) {
    if turns == [] then first == last
    else
      var u := turns[|turns| - 1];
      u.after == last && Proceeds(tr, hook, u) && Round(tr, hook, turns[..|turns| - 1], first, u.before)
  }

  /** What a round sends, packet after packet. */
  ghost function RoundSent(tr: Translator, hook: nat -> bool, turns: seq<Turn>, first: PoolView,
                           last: PoolView): seq<seq<Byte>>
    requires tr.Configured() && Round(tr, hook, turns, first, last)
  {
    if turns == [] then []
    else
      var u := turns[|turns| - 1];
      RoundSent(tr, hook, turns[..|turns| - 1], first, u.before) + Sends(tr, u)
  }

  /** The turns are about these packets, at these times. */
  ghost predicate About(turns: seq<Turn>, packets: seq<seq<Byte>>, clock: seq<int>, randoms: seq<(U16, U16)>) {
    && |turns| <= |packets| == |clock| == |randoms|
    && forall i :: 0 <= i < |turns| ==>
           turns[i].packet == packets[i] && turns[i].now == clock[i] && turns[i].random == randoms[i]
  }

  ghost function Times(turns: seq<Turn>): set<int> {
    set i | 0 <= i < |turns| :: turns[i].now
  }

  /**
   * A round is a run of the pool's state machine, by lookups at the times of its packets, when the pool is behind its
   * table.
   */
  lemma {:induction false} RoundLeads(tr: Translator, hook: nat -> bool, turns: seq<Turn>, first: PoolView,
                                      last: PoolView)
    returns (states: seq<State>, steps: seq<Step>)
    requires WellFormed(tr.table.t) && first.WithPool? && GoodView(first) && Round(tr, hook, turns, first, last)
    requires forall v: nat :: hook(v) == ReservedBy(tr.table.t, first.c, v)
    ensures last.WithPool? && last.c == first.c
            && Leads(tr.table.t, first.c, first.s, last.s, states, steps, Times(turns))
    decreases |turns|
  {
    hide Leads, Moved, GoodView, WellFormed, ReservedBy, Translator.Asked;
    if turns == [] {
      assert ValidParams(first.c) by { GoodParams(first); }
      LeadsNowhere(tr.table.t, first.c, first.s, Times(turns));
      return [first.s], [];
    }
    var u, before := turns[|turns| - 1], turns[..|turns| - 1];
    states, steps := RoundLeads(tr, hook, before, first, u.before);
    tr.AskedValid(u.before, u.packet);
    var states', steps' := MovedLeads(tr.table.t, u.before, u.after, tr.Asked(u.before, u.packet), u.now, hook,
      u.answer);
    states, steps := LeadsOn(tr.table.t, first.c, first.s, u.before.s, last.s, states, steps, states', steps',
      Times(before), {u.now});
    TimesNext(turns);
  }

  lemma GoodParams(pv: PoolView)
    requires GoodView(pv) && pv.WithPool?
    ensures ValidParams(pv.c)
  {
  }

  lemma TimesNext(turns: seq<Turn>)
    requires turns != []
    ensures Times(turns) == Times(turns[..|turns| - 1]) + {turns[|turns| - 1].now}
  {
    var n := |turns| - 1;
    forall x | x in Times(turns) ensures x in Times(turns[..n]) + {turns[n].now} {
      var i :| 0 <= i < |turns| && turns[i].now == x;
      if i < n { assert turns[..n][i].now == x; }
    }
    forall x | x in Times(turns[..n]) ensures x in Times(turns) {
      var i :| 0 <= i < n && turns[..n][i].now == x;
      assert turns[i].now == x;
    }
    assert turns[n].now in Times(turns);
  }

  /** The table served one packet. */
  ghost predicate Turned(tr: Translator, st: TableState, st': TableState, u: Turn) {
    && st'.valid && st'.hook == st.hook && (st.tidy ==> st'.tidy)
    && u.before == st.view && u.after == st'.view && Proceeds(tr, st.hook, u)
  }

  /** A round so far: it started with the table at st, and the table is at st' now. */
  ghost predicate Going(tr: Translator, st: TableState, turns: seq<Turn>, st': TableState, sent: seq<seq<Byte>>,
                        sent': seq<seq<Byte>>) {
    && st'.valid && st'.hook == st.hook && (st.tidy ==> st'.tidy)
    && tr.Configured() && Round(tr, st.hook, turns, st.view, st'.view)
    && sent' == sent + RoundSent(tr, st.hook, turns, st.view, st'.view)
  }

  lemma GoingNext(tr: Translator, st: TableState, turns: seq<Turn>, st1: TableState, u: Turn, st2: TableState,
                  sent: seq<seq<Byte>>, sent': seq<seq<Byte>>)
    requires Going(tr, st, turns, st1, sent, sent') && Turned(tr, st1, st2, u) && WellFormed(tr.table.t)
             && GoodView(u.before)
    ensures Going(tr, st, turns + [u], st2, sent, sent' + Sends(tr, u))
  {
    hide Proceeds, Sends, WellFormed, GoodView;
    assert (turns + [u])[..|turns|] == turns;
    var r := RoundSent(tr, st.hook, turns, st.view, u.before);
    assert sent + r + Sends(tr, u) == sent + (r + Sends(tr, u));
  }

  lemma GoingFirst(tr: Translator, st: TableState, sent: seq<seq<Byte>>)
    requires tr.Configured() && st.valid
    ensures Going(tr, st, [], st, sent, sent)
  {
  }

  lemma AboutNext(turns: seq<Turn>, u: Turn, packets: seq<seq<Byte>>, clock: seq<int>, randoms: seq<(U16, U16)>)
    requires About(turns, packets, clock, randoms) && |turns| < |packets|
    requires u.packet == packets[|turns|] && u.now == clock[|turns|] && u.random == randoms[|turns|]
    ensures About(turns + [u], packets, clock, randoms)
  {
  }

  /** The per-batch loop: every packet is translated with the table as the packets before it left it, and in order. */
  method TranslateBatch(tr: Translator, bufs: seq<array<Byte>>, sizes: seq<nat>, em: Emitter, clock: seq<int>,
                        randoms: seq<(U16, U16)>, ghost packets: seq<seq<Byte>>)
    returns (ghost turns: seq<Turn>)
    requires tr.Configured() && tr.table.Valid() && em.Valid() && Inputs(tr, bufs, sizes, em)
             && Holding(bufs, sizes, packets, 0)
    requires |clock| == |randoms| == |bufs|
    modifies Owned(tr.table), em, em.Spare(), bufs
    ensures em.Valid() && tr.table.Valid() && Hook(tr.table) == old(Hook(tr.table))
            && (old(tr.table.Tidy()) ==> tr.table.Tidy())
    ensures |turns| == |packets| && About(turns, packets, clock, randoms)
    ensures Round(tr, Hook(tr.table), turns, old(tr.table.View()), tr.table.View())
    ensures em.Sent() == old(em.Sent()) + RoundSent(tr, Hook(tr.table), turns, old(tr.table.View()), tr.table.View())
  {
    hide PacketsOf, Emitter.Valid, AddressTable.Valid, AddressTable.Tidy, Round, RoundSent, Inputs, About;
    turns := TranslateAll(tr, bufs, sizes, em, clock, randoms, packets);
  }

  method TranslateAll(tr: Translator, bufs: seq<array<Byte>>, sizes: seq<nat>, em: Emitter, clock: seq<int>,
                      randoms: seq<(U16, U16)>, ghost packets: seq<seq<Byte>>)
    returns (ghost turns: seq<Turn>)
    requires tr.Configured() && StateOf(tr.table).valid && em.Valid() && Inputs(tr, bufs, sizes, em)
             && Holding(bufs, sizes, packets, 0)
    requires |clock| == |randoms| == |bufs| == |packets|
    modifies Owned(tr.table), em, em.Spare(), bufs
    ensures em.Valid() && |turns| == |packets| && About(turns, packets, clock, randoms)
    ensures Going(tr, old(StateOf(tr.table)), turns, StateOf(tr.table), old(em.Sent()), em.Sent())
  {
    hide PacketsOf, Emitter.Valid, StateOf, Going, Turned, Sends, About, GoodView, WellFormed, Holding;
    turns := [];
    ghost var st, sent := StateOf(tr.table), em.Sent();
    GoingFirst(tr, st, sent);
    AboutNothing(packets, clock, randoms);
    for i := 0 to |bufs|
      invariant em.Valid() && em.Spare() <= old(em.Spare()) && fresh(em.Held() - old(em.Held()))
      invariant fresh(Owned(tr.table) - old(Owned(tr.table))) && Owned(tr.table) !! em.Held() + {em}
      invariant Holding(bufs, sizes, packets, i)
      invariant |turns| == i && About(turns, packets, clock, randoms)
      invariant StateOf(tr.table).valid && Going(tr, st, turns, StateOf(tr.table), sent, em.Sent())
    {
      ghost var st1, before := StateOf(tr.table), em.Sent();
      ghost var u := TranslateNext(tr, bufs, sizes, em, clock[i], randoms[i], packets, i);
      GoingNext(tr, st, turns, st1, u, StateOf(tr.table), sent, before);
      AboutNext(turns, u, packets, clock, randoms);
      turns := turns + [u];
    }
  }

  /** One packet of the batch; the packets after it are not touched. */
  method TranslateNext(tr: Translator, bufs: seq<array<Byte>>, sizes: seq<nat>, em: Emitter, now: int,
                       random: (U16, U16), ghost packets: seq<seq<Byte>>, i: nat)
    returns (ghost u: Turn)
    requires tr.Configured() && StateOf(tr.table).valid && em.Valid() && i < |bufs| == |sizes|
             && Holding(bufs, sizes, packets, i)
    requires forall j :: i <= j < |bufs| ==> tr.Separate(bufs[j], em)
    requires forall j :: i < j < |bufs| ==> bufs[j] != bufs[i]
    modifies Owned(tr.table), em, em.Spare(), bufs[i]
    ensures em.Valid() && em.Spare() <= old(em.Spare()) && fresh(em.Held() - old(em.Held()))
    ensures fresh(Owned(tr.table) - old(Owned(tr.table))) && Owned(tr.table) !! em.Held() + {em}
            && Holding(bufs, sizes, packets, i + 1)
    ensures u.now == now && u.random == random && u.packet == packets[i] && WellFormed(tr.table.t) && GoodView(u.before)
    ensures StateOf(tr.table).valid && Turned(tr, old(StateOf(tr.table)), StateOf(tr.table), u)
    ensures em.Sent() == old(em.Sent()) + Sends(tr, u)
  {
    hide PacketsOf, Emitter.Valid, StateOf, Turned, Sends, GoodView, WellFormed;
    u := TranslateOne(tr, bufs[i], OFFSET + sizes[i], em, now, random, packets[i]);
  }

  lemma AboutNothing(packets: seq<seq<Byte>>, clock: seq<int>, randoms: seq<(U16, U16)>)
    requires |packets| == |clock| == |randoms|
    ensures About([], packets, clock, randoms)
  {
  }

  /** One packet of the batch. */
  method TranslateOne(tr: Translator, buf: array<Byte>, end: nat, em: Emitter, now: int, random: (U16, U16),
                      ghost packet: seq<Byte>) returns (ghost u: Turn)
    requires tr.Configured() && StateOf(tr.table).valid && em.Valid() && tr.Separate(buf, em)
    requires OFFSET <= end <= buf.Length && packet == buf[OFFSET..end]
    modifies Owned(tr.table), em, em.Spare(), buf
    ensures em.Valid() && em.Spare() <= old(em.Spare()) && fresh(em.Held() - old(em.Held()))
    ensures fresh(Owned(tr.table) - old(Owned(tr.table))) && Owned(tr.table) !! em.Held() + {em}
    ensures u.now == now && u.random == random && u.packet == packet && WellFormed(tr.table.t) && GoodView(u.before)
    ensures StateOf(tr.table).valid && Turned(tr, old(StateOf(tr.table)), StateOf(tr.table), u)
    ensures em.Sent() == old(em.Sent()) + Sends(tr, u)
  {
    hide PacketsOf, Emitter.Valid, AddressTable.Valid, AddressTable.Tidy, X.Translate, Translator.EnvOf, Idents;
    hide WellFormed, GoodView, Moved;
    hide Translator.Asked;
    ghost var pv, r1 := tr.Translate(buf, OFFSET, end, em, now, random.0, random.1);
    u := Turn(pv, tr.table.View(), r1, now, random, packet);
  }
}
