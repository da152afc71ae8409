/** The emitter: output buffers between a free list and the packets of the next write. */
module Emitters {
  import opened Bytes
  import opened Xlate

  /** Headroom in front of every packet. */
  const OFFSET := 16

  /** buf[..end] of a buffer of full capacity; the packet is buf[OFFSET..end]. */
  datatype Slice = Slice(buf: array<Byte>, end: nat)

  predicate Capacious(b: array<Byte>) {
    b.Length == OFFSET + MAX_PACKET
  }

  ghost function PacketOf(s: Slice): seq<Byte>
    reads s.buf
  {
    if OFFSET <= s.end <= s.buf.Length then s.buf[OFFSET..s.end] else []
  }

  ghost function BuffersOf(out: seq<Slice>): set<object> {
    set i | 0 <= i < |out| :: out[i].buf
  }

  ghost function PacketsOf(out: seq<Slice>): seq<seq<Byte>>
    reads BuffersOf(out)
  {
    if out == [] then []
    else
      var n := |out| - 1;
      assert out[n].buf in BuffersOf(out) && BuffersOf(out[..n]) <= BuffersOf(out);
      PacketsOf(out[..n]) + [PacketOf(out[n])]
  }

  class Emitter {
    var out: seq<Slice>
    var free: seq<array<Byte>>

    /** No two of the buffers held are the same. */
    ghost predicate Valid()
      reads this
    {
      && (forall i :: 0 <= i < |out| ==> Capacious(out[i].buf) && OFFSET <= out[i].end <= OFFSET + MAX_PACKET)
      && (forall i :: 0 <= i < |free| ==> Capacious(free[i]))
      && (forall i, j :: 0 <= i < j < |out| ==> out[i].buf != out[j].buf)
      && (forall i, j :: 0 <= i < j < |free| ==> free[i] != free[j])
      && (forall i, j :: 0 <= i < |out| && 0 <= j < |free| ==> out[i].buf != free[j])
    }

    ghost function Handed(): set<object>
      reads this
    {
      BuffersOf(out)
    }

    ghost function Spare(): set<object>
      reads this
    {
      set i | 0 <= i < |free| :: free[i]
    }

    ghost function Held(): set<object>
      reads this
    {
      Handed() + Spare()
    }

    /** The packets that the next write sends. */
    ghost function Sent(): seq<seq<Byte>>
      reads this, Handed()
    {
      PacketsOf(out)
    }

    constructor ()
      ensures Valid() && out == [] && free == []
    {
      out, free := [], [];
    }

    /** Packet: a buffer that no earlier packet uses, or none for an oversized packet. */
    method Packet(n: nat) returns (b: array?<Byte>)
      requires Valid()
      modifies this
      ensures Valid()
      ensures if n > MAX_PACKET then b == null && out == old(out) && free == old(free)
              else b != null && Capacious(b) && (b in old(Spare()) || fresh(b)) && b !in old(Handed())
                   && out == old(out) + [Slice(b, OFFSET + n)] && Spare() <= old(Spare()) - {b}
    {
      if n > MAX_PACKET {
        return null;
      }
      if |free| > 0 {
        b := free[|free| - 1];
        free := free[..|free| - 1];
      } else {
        b := new Byte[OFFSET + MAX_PACKET](_ => 0);
      }
      out := out + [Slice(b, OFFSET + n)];
    }

    /** recycle: every buffer handed out is spare again. */
    method Recycle()
      requires Valid()
      modifies this
      ensures Valid() && out == [] && Spare() == old(Spare() + Handed())
    {
      for i := 0 to |out|
        invariant out == old(out) && |free| == |old(free)| + i
        invariant forall k :: 0 <= k < |free| ==>
                      free[k] == if k < |old(free)| then old(free)[k] else out[k - |old(free)|].buf
      {
        free := free + [out[i].buf];
      }
      forall b | b in old(Spare() + Handed()) ensures b in Spare() {
        if i :| 0 <= i < |old(out)| && b == old(out)[i].buf { assert free[|old(free)| + i] == b; }
      }
      out := [];
    }
  }
}
