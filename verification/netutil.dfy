/** Address validation and the RFC 6052 embedding. */
module NetUtil {
  import opened Bytes

  datatype Option<+T> = None | Some(value: T)

  datatype Class4 = Usable | LinkLocal | Invalid

  function ClassifyIPv4(a: Addr4): Class4 {
    if a[0] == 0 then Invalid
    else if a[0] == 127 then Invalid
    else if a[0] == 169 && a[1] == 254 then LinkLocal
    else if a[0] / 0x10 == 0xe then Invalid
    else if a == [255, 255, 255, 255] then Invalid
    else Usable
  }

  predicate ValidIPv6(a: Addr6) {
    if a[0] == 0 && a[1] == 0x64 && a[2] == 0xff && a[3] == 0x9b then true
    else a[0] != 0 && a[0] != 0xff && !(a[0] == 0xfe && a[1] / 0x40 == 2)
  }

  predicate IsPrivateIPv4(a: Addr4) {
    || a[0] == 10
    || (a[0] == 100 && a[1] / 0x40 == 1)
    || (a[0] == 172 && a[1] / 0x10 == 1)
    || (a[0] == 192 && a[1] == 0 && a[2] == 2)
    || (a[0] == 192 && a[1] == 168)
    || (a[0] == 198 && a[1] / 2 == 9)
    || (a[0] == 198 && a[1] == 51 && a[2] == 100)
    || (a[0] == 203 && a[1] == 0 && a[2] == 113)
  }

  /** 64:ff9b::, the address of the well-known prefix. */
  const WELL_KNOWN: Addr6 := [0, 0x64, 0xff, 0x9b, 0, 0, 0, 0, 0, 0, 0, 0, 0, 0, 0, 0]

  predicate IsWellKnownPrefix(prefix: Addr6, len: nat) {
    len == 96 && prefix == WELL_KNOWN
  }

  predicate ValidRFC6052PrefixLen(n: nat) {
    n == 32 || n == 40 || n == 48 || n == 56 || n == 64 || n == 96
  }

  predicate Zero(b: seq<Byte>) {
    forall i :: 0 <= i < |b| ==> b[i] == 0
  }

  function Zeros(n: nat): (r: seq<Byte>)
    ensures |r| == n && Zero(r)
  {
    seq(n, _ => 0)
  }

  function Embed(prefix: Addr6, len: nat, v4: Addr4): Option<Addr6> {
    match len
    case 32 => Some(prefix[..4] + v4 + Zeros(8))
    case 40 => Some(prefix[..5] + v4[..3] + [0] + v4[3..] + Zeros(6))
    case 48 => Some(prefix[..6] + v4[..2] + [0] + v4[2..] + Zeros(5))
    case 56 => Some(prefix[..7] + v4[..1] + [0] + v4[1..] + Zeros(4))
    case 64 => Some(prefix[..8] + [0] + v4 + Zeros(3))
    case 96 => Some(prefix[..12] + v4)
    case _ => None
  }

  function Extract(v6: Addr6, len: nat): Option<Addr4> {
    match len
    case 32 => if Zero(v6[8..]) then Some(v6[4..8]) else None
    case 40 => if v6[8] == 0 && Zero(v6[10..]) then Some(v6[5..8] + v6[9..10]) else None
    case 48 => if v6[8] == 0 && Zero(v6[11..]) then Some(v6[6..8] + v6[9..11]) else None
    case 56 => if v6[8] == 0 && Zero(v6[12..]) then Some(v6[7..8] + v6[9..12]) else None
    case 64 => if v6[8] == 0 && Zero(v6[13..]) then Some(v6[9..13]) else None
    case 96 => Some(v6[12..])
    case _ => None
  }

  // ----- Section 2.2 of RFC 6052, stated by octet position -----

  /** Where octet i of the IPv4 address goes: after the prefix, skipping the reserved octet 8 (bits 64 to 71). */
  function Position(len: nat, i: nat): nat {
    if len == 96 then 12 + i
    else if len / 8 + i < 8 then len / 8 + i
    else len / 8 + i + 1
  }

  predicate IsPosition(len: nat, k: nat) {
    k == Position(len, 0) || k == Position(len, 1) || k == Position(len, 2) || k == Position(len, 3)
  }

  /** v6 carries v4 in the prefix: the prefix octets, then the address octets at their positions, all others zero. */
  ghost predicate Carries(v6: Addr6, prefix: Addr6, len: nat, v4: Addr4)
    requires ValidRFC6052PrefixLen(len)
  {
    && v6[..len / 8] == prefix[..len / 8]
    && (forall i :: 0 <= i < 4 ==> v6[Position(len, i)] == v4[i])
    && (forall k :: len / 8 <= k < 16 && !IsPosition(len, k) ==> v6[k] == 0)
  }

  /** Octet k of the address that carries v4. */
  function Octet(prefix: Addr6, len: nat, v4: Addr4, k: nat): Byte
    requires k < 16
  {
    if k < len / 8 then prefix[k]
    else if k == Position(len, 0) then v4[0]
    else if k == Position(len, 1) then v4[1]
    else if k == Position(len, 2) then v4[2]
    else if k == Position(len, 3) then v4[3]
    else 0
  }

  lemma EmbedAt(prefix: Addr6, len: nat, v4: Addr4, k: nat)
    requires ValidRFC6052PrefixLen(len) && k < 16
    ensures Embed(prefix, len, v4).Some? && Embed(prefix, len, v4).value[k] == Octet(prefix, len, v4, k)
  {
  }

  lemma CarriesAt(v6: Addr6, prefix: Addr6, len: nat, v4: Addr4)
    requires ValidRFC6052PrefixLen(len)
    ensures Carries(v6, prefix, len, v4) <==> forall k :: 0 <= k < 16 ==> v6[k] == Octet(prefix, len, v4, k)
  {
    if Carries(v6, prefix, len, v4) {
      forall k | 0 <= k < 16 ensures v6[k] == Octet(prefix, len, v4, k) {
        if k < len / 8 { assert v6[k] == v6[..len / 8][k] == prefix[..len / 8][k]; }
      }
    }
    if forall k :: 0 <= k < 16 ==> v6[k] == Octet(prefix, len, v4, k) {
      forall i | 0 <= i < 4 ensures v6[Position(len, i)] == v4[i] {
        assert v6[Position(len, i)] == Octet(prefix, len, v4, Position(len, i));
      }
    }
  }

  /** Embed produces the one address that carries v4, for exactly the six legal lengths. */
  lemma EmbedCarries(prefix: Addr6, len: nat, v4: Addr4, v6: Addr6)
    ensures Embed(prefix, len, v4) == Some(v6) <==> ValidRFC6052PrefixLen(len) && Carries(v6, prefix, len, v4)
  {
    if ValidRFC6052PrefixLen(len) {
      forall k | 0 <= k < 16 ensures Embed(prefix, len, v4).Some? &&
                                     Embed(prefix, len, v4).value[k] == Octet(prefix, len, v4, k) {
        EmbedAt(prefix, len, v4, k);
      }
      CarriesAt(v6, prefix, len, v4);
      if Carries(v6, prefix, len, v4) { assert v6 == Embed(prefix, len, v4).value; }
    }
  }

  lemma ExtractAt(v6: Addr6, len: nat, v4: Addr4, k: nat)
    requires Extract(v6, len) == Some(v4) && k < 16
    ensures v6[k] == Octet(v6, len, v4, k)
  {
    if k >= 8 && Zero(v6[8..]) { assert v6[k] == v6[8..][k - 8]; }
    if k >= 10 && Zero(v6[10..]) { assert v6[k] == v6[10..][k - 10]; }
    if k >= 11 && Zero(v6[11..]) { assert v6[k] == v6[11..][k - 11]; }
    if k >= 12 && Zero(v6[12..]) { assert v6[k] == v6[12..][k - 12]; }
    if k >= 13 && Zero(v6[13..]) { assert v6[k] == v6[13..][k - 13]; }
  }

  /**
   * Extract accepts an address exactly when it carries some IPv4 address under its own prefix, and returns that one.
   */
  lemma ExtractFinds(v6: Addr6, len: nat, v4: Addr4)
    ensures Extract(v6, len) == Some(v4) <==> ValidRFC6052PrefixLen(len) && Carries(v6, v6, len, v4)
  {
    if Extract(v6, len).Some? {
      var x := Extract(v6, len).value;
      forall k | 0 <= k < 16 ensures v6[k] == Octet(v6, len, x, k) { ExtractAt(v6, len, x, k); }
      CarriesAt(v6, v6, len, x);
      if ValidRFC6052PrefixLen(len) && Carries(v6, v6, len, v4) {
        forall i | 0 <= i < 4 ensures x[i] == v4[i] { assert v6[Position(len, i)] == x[i]; }
        assert x == v4;
      }
    } else if ValidRFC6052PrefixLen(len) && Carries(v6, v6, len, v4) {
      CarriesAt(v6, v6, len, v4);
    }
  }
}
