/** The Internet checksum: the 64-bit accumulator form of the translator and the plain form of RFC 1071. */
module Checksum {
  import opened Bytes

  // ----- The reference: one's complement sums of 16-bit words (RFC 1071 section 1) -----

  /** One's complement addition of two 16-bit words: a carry out of the top goes back in at the bottom. */
  function OnesAdd(x: U16, y: U16): U16 {
    if x + y < 0x1_0000 then x + y else x + y - 0xffff
  }

  /** The one's complement sum of `start` and the words of b; a last odd byte is padded with zero. */
  function OnesSum(b: seq<Byte>, start: U16): U16 {
    if |b| == 0 then start
    else if |b| == 1 then OnesAdd(start, b[0] as int * 0x100)
    else OnesSum(b[2..], OnesAdd(start, Get16(b, 0)))
  }

  // ----- The arithmetic reading -----

  /** The plain sum of the words of b. */
  function Words(b: seq<Byte>): nat {
    if |b| == 0 then 0
    else if |b| == 1 then b[0] * 0x100
    else Get16(b, 0) + Words(b[2..])
  }

  /** The 16-bit one's complement value of n: zero only for zero, otherwise the residue modulo 0xffff in 1..0xffff. */
  function Ones(n: nat): U16 {
    if n == 0 then 0 else (n - 1) % 0xffff + 1
  }

  /** A region with its pseudo-header sum passes when it sums to all ones. */
  predicate Verifies(b: seq<Byte>, extra: nat) {
    Ones(Words(b) + extra) == 0xffff
  }

  /** The value that belongs in a zeroed checksum field. */
  function ChecksumOf(b: seq<Byte>, extra: nat): U16 {
    0xffff - Ones(Words(b) + extra)
  }

  /** RFC 1624 section 3: the field after `remove` leaves the covered words and `add` enters them. */
  function Adjusted(field: U16, remove: nat, add: nat): U16 {
    0xffff - Ones((0xffff - field) + (0xffff - Ones(remove)) + add)
  }

  lemma OnesUnique(n: nat, r: U16, k: nat)
    requires 1 <= r && n == r + 0xffff * k
    ensures Ones(n) == r
  {
    assert n - 1 == (r - 1) + 0xffff * k;
  }

  lemma OnesSplit(n: nat) returns (k: int)
    ensures k >= 0 && n == Ones(n) + 0xffff * k && (n > 0 ==> 1 <= Ones(n))
  {
    k := if n == 0 then 0 else (n - 1) / 0xffff;
  }

  lemma OnesOfZero()
    ensures Ones(0) == 0
  {
  }

  lemma Congruent(x: nat, y: nat, k: int)
    requires x == y + 0xffff * k
    ensures x % 0xffff == y % 0xffff
  {
  }

  lemma Multiple(x: nat, y: nat) returns (k: int)
    requires x % 0xffff == y % 0xffff
    ensures x == y + 0xffff * k
  {
    k := x / 0xffff - y / 0xffff;
  }

  lemma SameOnes(x: nat, y: nat)
    requires Ones(x) == Ones(y)
    ensures x % 0xffff == y % 0xffff && (x == 0 <==> y == 0)
  {
    var i := OnesSplit(x);
    var j := OnesSplit(y);
    hide Ones;
    Congruent(x, y, i - j);
  }

  lemma SameResidue(x: nat, y: nat)
    requires x % 0xffff == y % 0xffff && x > 0 && y > 0
    ensures Ones(x) == Ones(y)
  {
    var i := OnesSplit(x);
    var j := OnesSplit(y);
    var k := Multiple(x, y);
    hide Ones;
    assert Ones(x) - Ones(y) == 0xffff * (k - i + j);
  }

  /** Numbers that agree modulo 0xffff and on being zero have the same one's complement value, and only those. */
  lemma OnesCongruent(x: nat, y: nat)
    ensures Ones(x) == Ones(y) <==> x % 0xffff == y % 0xffff && (x == 0 <==> y == 0)
  {
    hide Ones;
    if Ones(x) == Ones(y) { SameOnes(x, y); }
    if x % 0xffff == y % 0xffff && x > 0 && y > 0 { SameResidue(x, y); }
  }

  lemma OnesPlusMultiple(n: nat, k: nat)
    requires n > 0
    ensures Ones(n + 0xffff * k) == Ones(n)
  {
    var j := OnesSplit(n);
    OnesUnique(n + 0xffff * k, Ones(n), j + k);
  }

  lemma OnesAddLeft(x: nat, y: nat, z: nat)
    requires Ones(x) == Ones(y)
    ensures Ones(x + z) == Ones(y + z)
  {
    if x > 0 {
      var i := OnesSplit(x);
      var j := OnesSplit(y);
      OnesPlusMultiple(Ones(x) + z, i);
      OnesPlusMultiple(Ones(y) + z, j);
    }
  }

  lemma OnesAddIsSum(x: U16, y: U16)
    ensures OnesAdd(x, y) == Ones(x + y)
  {
    if x + y >= 0x1_0000 { OnesUnique(x + y, x + y - 0xffff, 1); }
    else if x + y > 0 { OnesUnique(x + y, x + y, 0); }
  }

  /** The end-around-carry sum of RFC 1071 is the arithmetic reading, for every byte string and start value. */
  lemma {:induction false} OnesSumIsWords(b: seq<Byte>, start: U16)
    ensures OnesSum(b, start) == Ones(start + Words(b))
    decreases |b|
  {
    if |b| == 0 {
      if start > 0 { OnesUnique(start, start, 0); }
    } else if |b| == 1 {
      OnesAddIsSum(start, b[0] as int * 0x100);
    } else {
      var w := Get16(b, 0);
      OnesAddIsSum(start, w);
      OnesSumIsWords(b[2..], OnesAdd(start, w));
      if start + w > 0 {
        var k := OnesSplit(start + w);
        OnesUnique(Ones(start + w), Ones(start + w), 0);
      }
      OnesAddLeft(OnesAdd(start, w), start + w, Words(b[2..]));
    }
  }

  /** What passing verification means for the plain sum. */
  lemma VerifiesMeans(b: seq<Byte>, extra: nat)
    ensures Verifies(b, extra) <==> Words(b) + extra > 0 && (Words(b) + extra) % 0xffff == 0
  {
    OnesCongruent(Words(b) + extra, 0xffff);
  }

  // ----- Sums of parts -----

  lemma {:induction false} WordsConcat(a: seq<Byte>, b: seq<Byte>)
    requires |a| % 2 == 0
    ensures Words(a + b) == Words(a) + Words(b)
    decreases |a|
  {
    if |a| == 0 {
      assert a + b == b;
    } else {
      WordsConcat(a[2..], b);
      assert (a + b)[2..] == a[2..] + b;
    }
  }

  lemma {:induction false} WordsZero(b: seq<Byte>)
    ensures Words(b) == 0 <==> forall i :: 0 <= i < |b| ==> b[i] == 0
    decreases |b|
  {
    if |b| >= 2 {
      WordsZero(b[2..]);
      if Words(b) == 0 {
        forall i | 0 <= i < |b| ensures b[i] == 0 {
          if i >= 2 { assert b[i] == b[2..][i - 2]; }
        }
      }
    }
  }

  /** Overwriting a field at an even offset changes the sum by the difference of the two values. */
  lemma {:induction false} WordsPut16(b: seq<Byte>, i: nat, v: U16)
    requires i % 2 == 0 && i + 2 <= |b|
    ensures Words(Put16(b, i, v)) == Words(b) - Get16(b, i) + v
    decreases |b|
  {
    var c := Put16(b, i, v);
    if i == 0 {
      assert c[2..] == b[2..];
    } else {
      WordsPut16(b[2..], i - 2, v);
      assert c[2..] == Put16(b[2..], i - 2, v);
    }
  }

  /** Overwriting the first byte changes the high half of the first word. */
  lemma WordsPutFirst(b: seq<Byte>, v: Byte)
    requires |b| >= 2
    ensures Words(b[0 := v]) == Words(b) + (v - b[0]) * 0x100
  {
    assert b[0 := v][2..] == b[2..];
  }

  lemma {:induction false} WordsBound(b: seq<Byte>)
    ensures Words(b) <= 0x1_0000 * |b|
    decreases |b|
  {
    if |b| >= 2 { WordsBound(b[2..]); }
  }

  // ----- The laws the translator relies on -----

  /** Storing the computed checksum in a zeroed field at an even offset always makes the region verify. */
  lemma ChecksumVerifies(b: seq<Byte>, i: nat, extra: nat)
    requires i % 2 == 0 && i + 2 <= |b| && Get16(b, i) == 0
    ensures Verifies(Put16(b, i, ChecksumOf(b, extra)), extra)
  {
    var t := Words(b) + extra;
    WordsPut16(b, i, ChecksumOf(b, extra));
    if t > 0 {
      var k := OnesSplit(t);
      OnesUnique(t + 0xffff - Ones(t), 0xffff, k);
    } else {
      OnesUnique(0xffff, 0xffff, 0);
    }
  }

  /**
   * RFC 1624: the adjusted field differs from the former one by remove - add, and is never 0xffff unless all is zero.
   */
  lemma AdjustedCongruent(field: U16, remove: nat, add: nat)
    ensures (Adjusted(field, remove, add) + add) % 0xffff == (field + remove) % 0xffff
    ensures Adjusted(field, remove, add) == 0xffff <==> field == 0xffff && Ones(remove) == 0xffff && add == 0
  {
    hide Ones;
    var t := (0xffff - field) + (0xffff - Ones(remove)) + add;
    var k := OnesSplit(t);
    var j := OnesSplit(remove);
    Congruent(Adjusted(field, remove, add) + add, field + remove, k - j - 1);
    assert t == 0 ==> Ones(t) == 0;
  }

  // ----- The code -----

  /** One 32-bit word counts as its two halves. */
  lemma HalvesOfWord(b: seq<Byte>, i: nat)
    requires i + 4 <= |b|
    ensures Get32(b, i) == 0x1_0000 * Get16(b, i) + Get16(b, i + 2)
  {
  }

  /** The plain sum that an accumulator of 32-bit words collects: two words for each eight bytes, then 16-bit words. */
  function Wide(b: seq<Byte>): (w: nat)
    ensures w <= 0x1_0000_0000 * |b|
  {
    if |b| >= 8 then Get32(b, 0) + Get32(b, 4) + Wide(b[8..]) else WordsBound(b); Words(b)
  }

  lemma HalvesCount(x: nat, y: nat, hi: U16, lo: U16)
    requires Ones(x) == Ones(y)
    ensures Ones(x + (0x1_0000 * hi + lo)) == Ones(y + hi + lo)
  {
    OnesAddLeft(x, y, hi + lo);
    if hi > 0 { OnesPlusMultiple(x + hi + lo, hi); }
  }

  lemma EightBytes(b: seq<Byte>)
    requires |b| >= 8
    ensures Words(b) == Get16(b, 0) + Get16(b, 2) + Get16(b, 4) + Get16(b, 6) + Words(b[8..])
  {
    assert b[2..][2..] == b[4..] && Words(b[2..]) == Get16(b, 2) + Words(b[4..]);
    assert b[4..][2..] == b[6..] && Words(b[4..]) == Get16(b, 4) + Words(b[6..]);
    assert b[6..][2..] == b[8..];
  }

  /** The wide sum and the sum of the 16-bit words have the same one's complement value. */
  lemma {:induction false} WideIsWords(b: seq<Byte>, x: nat, y: nat)
    requires Ones(x) == Ones(y)
    ensures Ones(x + Wide(b)) == Ones(y + Words(b))
    decreases |b|
  {
    hide Ones;
    if |b| >= 8 {
      EightBytes(b);
      HalvesOfWord(b, 0);
      HalvesOfWord(b, 4);
      HalvesCount(x, y, Get16(b, 0), Get16(b, 2));
      var x4, y4 := x + Get32(b, 0), y + Get16(b, 0) + Get16(b, 2);
      HalvesCount(x4, y4, Get16(b, 4), Get16(b, 6));
      WideIsWords(b[8..], x4 + Get32(b, 4), y4 + Get16(b, 4) + Get16(b, 6));
    } else {
      OnesAddLeft(x, y, Words(b));
    }
  }

  function Add64(x: U64, y: nat): (r: U64)
    ensures x + y < 0x1_0000_0000_0000_0000 ==> r == x + y
  {
    (x + y) % 0x1_0000_0000_0000_0000
  }

  /**
   * sum16: adds the words of b to acc, eight bytes at a time, in 64-bit arithmetic; nothing is lost unless the sum
   * itself is too big.
   */
  method Sum16(b: seq<Byte>, acc: U64) returns (r: U64)
    ensures acc + Wide(b) < 0x1_0000_0000_0000_0000 ==> r == acc + Wide(b) && Ones(r) == Ones(acc + Words(b))
  {
    ghost var fits := acc + Wide(b) < 0x1_0000_0000_0000_0000;
    hide Ones;
    r := acc;
    var i := 0;
    assert b[i..] == b;
    while i + 8 <= |b|
      invariant i <= |b|
      invariant fits ==> r + Wide(b[i..]) == acc + Wide(b)
    {
      assert b[i..][8..] == b[i + 8..];
      r := Add64(r, Get32(b, i) + Get32(b, i + 4));
      i := i + 8;
    }
    while i + 2 <= |b|
      invariant i <= |b| && |b| - i < 8
      invariant fits ==> r + Words(b[i..]) == acc + Wide(b)
    {
      assert b[i..][2..] == b[i + 2..];
      r := Add64(r, Get16(b, i));
      i := i + 2;
    }
    if i < |b| {
      r := Add64(r, b[i] as int * 0x100);
    }
    if fits { WideIsWords(b, acc, acc); }
  }

  /**
   * Moving the upper part of an accumulator down onto its lower part keeps its value, because 2^16 is 1 modulo 0xffff.
   */
  lemma FoldStep32(acc: nat)
    ensures Ones(acc / 0x1_0000_0000 + acc % 0x1_0000_0000) == Ones(acc)
  {
    var q, r := acc / 0x1_0000_0000, acc % 0x1_0000_0000;
    if q + r > 0 {
      var k := OnesSplit(q + r);
      OnesUnique(acc, Ones(q + r), k + 0x1_0001 * q);
    }
  }

  lemma FoldStep16(acc: nat)
    ensures Ones(acc / 0x1_0000 + acc % 0x1_0000) == Ones(acc)
  {
    var q, r := acc / 0x1_0000, acc % 0x1_0000;
    if q + r > 0 {
      var k := OnesSplit(q + r);
      OnesUnique(acc, Ones(q + r), k + q);
    }
  }

  /** fold: the four shift-and-add steps compute the one's complement value; the final narrowing loses nothing. */
  method Fold(acc0: U64) returns (r: U16)
    ensures r == Ones(acc0)
  {
    hide Ones;
    var acc := acc0;
    FoldStep32(acc);
    acc := acc / 0x1_0000_0000 + acc % 0x1_0000_0000;
    FoldStep32(acc);
    acc := acc / 0x1_0000_0000 + acc % 0x1_0000_0000;
    assert acc < 0x1_0000_0000;
    FoldStep16(acc);
    acc := acc / 0x1_0000 + acc % 0x1_0000;
    FoldStep16(acc);
    acc := acc / 0x1_0000 + acc % 0x1_0000;
    if acc > 0 { OnesUnique(acc, acc, 0); } else { OnesOfZero(); }
    r := acc % 0x1_0000;
  }

  /** What a 64-bit accumulator of at most 2^52 leaves room for: any packet and any pseudo-header. */
  const ROOM: nat := 0x10_0000_0000_0000

  method Checksum(b: seq<Byte>, extra: U64) returns (r: U16)
    requires |b| <= 0x1_ffff && extra <= ROOM
    ensures r == ChecksumOf(b, extra)
  {
    var s := Sum16(b, extra);
    var f := Fold(s);
    r := 0xffff - f;
  }

  method Verify(b: seq<Byte>, extra: U64) returns (ok: bool)
    requires |b| <= 0x1_ffff && extra <= ROOM
    ensures ok <==> Verifies(b, extra)
  {
    var s := Sum16(b, extra);
    var f := Fold(s);
    ok := f == 0xffff;
  }

  /** The pseudo-header sums of RFC 791/768 and of section 8.1 of RFC 8200. */
  function Pseudo4(addrs: seq<Byte>, length: nat, proto: Byte): nat
  {
    Words(addrs) + length + proto
  }

  function Pseudo6(addrs: seq<Byte>, length: nat, nextHeader: Byte): nat
  {
    Words(addrs) + length % 0x1_0000_0000 / 0x1_0000 + length % 0x1_0000 + nextHeader
  }

  /** They are the sums of the pseudo-headers as RFC 768 and section 8.1 of RFC 8200 lay them out. */
  lemma PseudoHeader4(addrs: seq<Byte>, length: U16, proto: Byte)
    requires |addrs| == 8
    ensures Pseudo4(addrs, length, proto) == Words(addrs + [0, proto] + Enc16(length))
  {
    var tail := [0, proto] + Enc16(length);
    assert addrs + [0, proto] + Enc16(length) == addrs + tail;
    WordsConcat(addrs, tail);
    assert tail[2..] == Enc16(length) && tail[2..][2..] == [];
    assert Words(tail[2..]) == Get16(tail[2..], 0) + Words(tail[2..][2..]);
  }

  lemma PseudoHeader6(addrs: seq<Byte>, length: U32, nextHeader: Byte)
    requires |addrs| == 32
    ensures Pseudo6(addrs, length, nextHeader) == Words(addrs + Enc32(length) + [0, 0, 0, nextHeader])
  {
    var e := Enc32(length);
    var last: seq<Byte> := [0, 0, 0, nextHeader];
    hide Words, Enc32;
    assert addrs + e + last == addrs + (e + last);
    WordsConcat(addrs, e + last);
    WordsConcat(e, last);
    TwoWords(e);
    TwoWords(last);
    assert Get16(e, 0) == Get16(e[..2], 0) && Get16(e, 2) == Get16(e[2..], 0);
  }

  lemma TwoWords(b: seq<Byte>)
    requires |b| == 4
    ensures Words(b) == Get16(b, 0) + Get16(b, 2)
  {
    assert b[2..][2..] == [] && Words(b[2..]) == Get16(b[2..], 0) + Words(b[2..][2..]);
  }

  method Adjust(field: U16, remove: U64, add: U64) returns (r: U16)
    requires add <= ROOM
    ensures r == Adjusted(field, remove, add)
  {
    var f := Fold(remove);
    var g := Fold((0xffff - field) + (0xffff - f) + add);
    r := 0xffff - g;
  }
}
