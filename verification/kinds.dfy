/** What ICMP errors mean, by RFC 792 and RFC 4443, and that translation keeps it. */
module Kinds {
  import opened Bytes
  import opened Xlate

  /** The header fields that both families have, by the layouts of RFC 791 and RFC 8200. */
  datatype Field = Version | Class | Length | Hops | Upper | Source | Destination | OtherField

  datatype Meaning =
    | Unreachable
    | Prohibited
    | ProtocolUnreachable
    | PortUnreachable
    | TooBig
    | HopsExceeded
    | ReassemblyExceeded
    | OtherTimeExceeded(code: Byte)
    | BadField(field: Field)
    | OtherMeaning

  /** The field at an octet of the IPv4 header. */
  function Field4(octet: nat): Field {
    if octet == 0 then Version
    else if octet == 1 then Class
    else if 2 <= octet < 4 then Length
    else if octet == 8 then Hops
    else if octet == 9 then Upper
    else if 12 <= octet < 16 then Source
    else if 16 <= octet < 20 then Destination
    else OtherField
  }

  /** The field at an octet of the IPv6 header. */
  function Field6(octet: nat): Field {
    if octet == 0 then Version
    else if octet == 1 then Class
    else if 4 <= octet < 6 then Length
    else if octet == 6 then Upper
    else if octet == 7 then Hops
    else if 8 <= octet < 24 then Source
    else if 24 <= octet < 40 then Destination
    else OtherField
  }

  /** The first octet of a field. */
  ghost predicate First(field: nat -> Field, octet: nat) {
    forall i: nat :: i < octet ==> field(i) != field(octet)
  }

  /** RFC 792, with the codes that RFC 1122 and RFC 1812 add; the pointer is the first octet of the word. */
  function Meaning4(typ: Byte, code: Byte, word: U32): Meaning {
    match typ
    case 3 =>
      if code in {0, 1, 5, 6, 7, 8, 11, 12} then Unreachable
      else if code == 2 then ProtocolUnreachable
      else if code == 3 then PortUnreachable
      else if code == 4 then TooBig
      else if code in {9, 10, 13, 15} then Prohibited
      else OtherMeaning
    case 11 => if code == 0 then HopsExceeded else if code == 1 then ReassemblyExceeded else OtherTimeExceeded(code)
    case 12 => if code in {0, 2} then BadField(Field4(word / 0x100_0000)) else OtherMeaning
    case _ => OtherMeaning
  }

  /** RFC 4443; the pointer is the word. */
  function Meaning6(typ: Byte, code: Byte, word: U32): Meaning {
    match typ
    case 1 =>
      if code in {0, 2, 3} then Unreachable
      else if code == 1 then Prohibited
      else if code == 4 then PortUnreachable
      else OtherMeaning
    case 2 => TooBig
    case 3 => if code == 0 then HopsExceeded else if code == 1 then ReassemblyExceeded else OtherTimeExceeded(code)
    case 4 =>
      if code == 0 then BadField(Field6(word)) else if code == 1 then ProtocolUnreachable else OtherMeaning
    case _ => OtherMeaning
  }

  /** Whether the other family has an error for it. */
  predicate HasCounterpart(m: Meaning) {
    m != OtherMeaning && m != BadField(OtherField)
  }

  /**
   * An ICMPv4 error has a translation exactly if ICMPv6 can say what it means, and the translation says it: with the
   * general code for an unreachable host, the first octet of a bad field, and the next header for a bad protocol.
   */
  lemma KindMeans4to6(mtu: nat, typ: Byte, code: Byte, word: U32, emTotal: nat)
    requires MTU_MIN <= mtu <= MAX_PACKET
    ensures var m, k := Meaning4(typ, code, word), ErrorKind4to6(mtu, typ, code, word, emTotal);
            && (k.Some? <==> HasCounterpart(m))
            && (k.Some? ==> Meaning6(k.value.typ, k.value.code, k.value.word) == m && Canonical6(k.value))
  {
    hide EstMTU;
  }

  /** The general code of its meaning, and a word where there has to be one. */
  ghost predicate Canonical6(k: ErrorKind) {
    && (k.typ == 1 && k.code in {0, 2, 3} ==> k.code == 0)
    && (k.typ == 2 ==> k.code == 0)
    && (k.typ == 4 && k.code == 1 ==> Field6(k.word) == Upper)
    && (k.typ == 4 && k.code == 0 ==> First(Field6, k.word))
    && (k.typ == 1 || k.typ == 3 ==> k.word == 0)
  }

  /** From ICMPv6 likewise; a Packet Too Big without a usable MTU has no translation either. */
  lemma KindMeans6to4(mtu: nat, typ: Byte, code: Byte, word: U32)
    requires MTU_MIN <= mtu <= MAX_PACKET
    ensures var m, k := Meaning6(typ, code, word), ErrorKind6to4(mtu, typ, code, word);
            && (k.Some? <==> HasCounterpart(m) && (m == TooBig ==> word >= 68))
            && (k.Some? ==> Meaning4(k.value.typ, k.value.code, k.value.word) == m && Canonical4(k.value))
            && (k.Some? && m == TooBig ==> k.value.word == Min(word, mtu) - 20)
  {
  }

  ghost predicate Canonical4(k: ErrorKind) {
    && (k.typ == 3 && k.code in {0, 1, 5, 6, 7, 8, 11, 12} ==> k.code == 1)
    && (k.typ == 3 && k.code in {9, 10, 13, 15} ==> k.code == 10)
    && (k.typ == 12 ==> k.code == 0 && k.word % 0x100_0000 == 0 && First(Field4, k.word / 0x100_0000))
    && ((k.typ == 3 && k.code != 4) || k.typ == 11 ==> k.word == 0)
  }
}
