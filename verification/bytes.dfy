/** Bytes, fixed-width unsigned integers and big-endian access, as encoding/binary gives them. */
module Bytes {
  type Byte = x: int | 0 <= x < 0x100
  type U16 = x: int | 0 <= x < 0x1_0000
  type U32 = x: int | 0 <= x < 0x1_0000_0000
  type U64 = x: int | 0 <= x < 0x1_0000_0000_0000_0000

  /** The bytes of an IPv4 or an IPv6 address in network order. */
  type Addr4 = s: seq<Byte> | |s| == 4 witness [0, 0, 0, 0]
  type Addr6 = s: seq<Byte> | |s| == 16 witness [0, 0, 0, 0, 0, 0, 0, 0, 0, 0, 0, 0, 0, 0, 0, 0]

  function Get16(b: seq<Byte>, i: nat): U16
    requires i + 2 <= |b|
  {
    b[i] as int * 0x100 + b[i + 1]
  }

  function Get32(b: seq<Byte>, i: nat): U32
    requires i + 4 <= |b|
  {
    b[i] as int * 0x100_0000 + b[i + 1] as int * 0x1_0000 + b[i + 2] as int * 0x100 + b[i + 3]
  }

  function Enc16(v: U16): (r: seq<Byte>)
    ensures |r| == 2 && Get16(r, 0) == v
  {
    [v / 0x100, v % 0x100]
  }

  function Enc32(v: U32): (r: seq<Byte>)
    ensures |r| == 4 && Get32(r, 0) == v
    ensures r[..2] == Enc16(v / 0x1_0000) && r[2..] == Enc16(v % 0x1_0000)
  {
    Enc16(v / 0x1_0000) + Enc16(v % 0x1_0000)
  }

  /** Overwrites the 16-bit field at offset i. */
  function Put16(b: seq<Byte>, i: nat, v: U16): (r: seq<Byte>)
    requires i + 2 <= |b|
    ensures |r| == |b| && Get16(r, i) == v
    ensures forall k :: 0 <= k < |b| && k != i && k != i + 1 ==> r[k] == b[k]
  {
    b[i := v / 0x100][i + 1 := v % 0x100]
  }

  function Min(x: int, y: int): int {
    if x < y then x else y
  }
}
