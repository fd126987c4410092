/**
 The BER subset of snmplib/asn1.c as functions on octet sequences: what the builders must
 produce (clause 8 of ITU-T X.690) and what the parsers compute.
 */
module Asn1 {
  import opened Options
  import opened Buffers
  import opened Powers

  type uint32 = x: int | 0 <= x < 0x1_0000_0000
  type int32 = x: int | -0x8000_0000 <= x < 0x8000_0000

  /** A parsed value with its type octet, the position after it and the octets still left. */
  datatype Parsed<T> = Parsed(value: T, typ: byte, pos: nat, left: int)

  const ASN_INTEGER: byte := 0x02
  const ASN_OCTET_STR: byte := 0x04
  const ASN_NULL: byte := 0x05
  const ASN_OBJECT_ID: byte := 0x06
  const ASN_SEQUENCE: byte := 0x30 // with the constructor bit

  /** An octet of the packet; the parsers do not check before they read, and octets past the end read as 0. */
  function Get(data: seq<byte>, i: nat): byte {
    if i < |data| then data[i] else 0
  }

  // ---------------------------------------------------------------- lengths and headers

  /** asn_build_length: the short form, or one or two octets; a length not yet known always takes two. */
  function EncLength(n: nat, truth: bool): seq<byte> {
    if truth && n < 0x80 then [n]
    else if truth && n <= 0xFF then [0x81, n]
    else [0x82, n / 256 % 256, n % 256]
  }

  function EncHeader(typ: byte, n: nat, truth: bool): seq<byte> {
    [typ] + EncLength(n, truth)
  }

  lemma HeaderSize(typ: byte, n: nat)
    ensures |EncHeader(typ, n, false)| == 4
  {}

  /** Big-endian value of k octets. */
  function BigEndian(data: seq<byte>, pos: nat, k: nat): nat {
    if k == 0 then 0 else BigEndian(data, pos, k - 1) * 256 + Get(data, pos + k - 1)
  }

  /** asn_parse_length: the length and the position after it. */
  function ParseLength(data: seq<byte>, pos: nat): Option<(nat, nat)> {
    var lengthbyte := Get(data, pos);
    if lengthbyte >= 0x80 then
      var k := lengthbyte - 0x80;
      if k == 0 || k > 4 then None
      else Some((BigEndian(data, pos + 1, k), pos + 1 + k))
    else Some((lengthbyte, pos + 1))
  }

  lemma LengthRoundTrip(data: seq<byte>, pos: nat, n: nat, truth: bool)
    requires n < 0x1_0000 && HasAt(data, pos, EncLength(n, truth))
    ensures ParseLength(data, pos) == Some((n, pos + |EncLength(n, truth)|))
  {
    var e := EncLength(n, truth);
    var d := data[pos..pos + |e|];
    assert d[0] == data[pos] && (|e| > 1 ==> d[1] == data[pos + 1]) && (|e| > 2 ==> d[2] == data[pos + 2]);
    if |e| == 3 {
      assert BigEndian(data, pos + 1, 1) == Get(data, pos + 1);
      assert BigEndian(data, pos + 1, 2) == Get(data, pos + 1) * 256 + Get(data, pos + 2);
    } else if |e| == 2 {
      assert BigEndian(data, pos + 1, 0) == 0;
    }
  }

  /** Sums of the bound checks are unsigned 32-bit. */
  function Wrap(x: int): uint32 {
    x % 0x1_0000_0000
  }

  /** asn_parse_header: the octets in the object become the octets left. */
  function ParseHeader(data: seq<byte>, pos: nat, left: int): Option<Parsed<()>> {
    var typ := Get(data, pos);
    if typ % 32 == 31 then None
    else
      match ParseLength(data, pos + 1)
      case None => None
      case Some((n, p)) =>
        if Wrap(p - pos + n) > Wrap(left) || n > 0x8_0000 then None
        else Some(Parsed((), typ, p, n))
  }

  lemma HeaderRoundTrip(data: seq<byte>, pos: nat, left: int, typ: byte, n: nat, truth: bool)
    requires n < 0x1_0000 && HasAt(data, pos, EncHeader(typ, n, truth)) && typ % 32 != 31
    requires |EncHeader(typ, n, truth)| + n <= left < 0x8000_0000
    ensures ParseHeader(data, pos, left) == Some(Parsed((), typ, pos + |EncHeader(typ, n, truth)|, n))
  {
    HasParts(data, pos, [typ], EncLength(n, truth));
    assert data[pos] == data[pos..pos + 1][0];
    LengthRoundTrip(data, pos + 1, n, truth);
  }

  /** What every primitive parser reads first: the type octet and the true length. */
  lemma ReadPrefix(data: seq<byte>, pos: nat, typ: byte, content: seq<byte>)
    requires |content| < 0x1_0000 && HasAt(data, pos, EncHeader(typ, |content|, true) + content)
    ensures var h := EncHeader(typ, |content|, true);
            && Get(data, pos) == typ
            && ParseLength(data, pos + 1) == Some((|content|, pos + |h|))
            && HasAt(data, pos + |h|, content)
            && 2 <= |h| <= 4
  {
    hide ParseLength;
    HasParts(data, pos, EncHeader(typ, |content|, true), content);
    HasParts(data, pos, [typ], EncLength(|content|, true));
    assert data[pos] == data[pos..pos + 1][0];
    LengthRoundTrip(data, pos + 1, |content|, true);
  }

  // ---------------------------------------------------------------- integers

  /** The low n octets of v in two's complement, most significant first. */
  function Octets(v: int, n: nat): (s: seq<byte>)
    ensures |s| == n
    decreases n
  {
    if n == 0 then [] else Octets(v / 256, n - 1) + [v % 256]
  }

  /** v fits in n octets as a signed number. */
  predicate Fits(v: int, n: nat) {
    n > 0 && -128 * Pow256(n - 1) <= v < 128 * Pow256(n - 1)
  }

  /** The shortest two's complement encoding of v (clause 8.3.2 of X.690), for at most five octets. */
  function MinLen(v: int): nat {
    if Fits(v, 1) then 1 else if Fits(v, 2) then 2 else if Fits(v, 3) then 3 else if Fits(v, 4) then 4 else 5
  }

  function EncInt(typ: byte, v: int): seq<byte> {
    EncHeader(typ, MinLen(v), true) + Octets(v, MinLen(v))
  }

  /** The accumulating loop of the integer parsers, in unbounded arithmetic. */
  function Accumulate(data: seq<byte>, pos: nat, k: nat, start: int): int {
    if k == 0 then start else Accumulate(data, pos, k - 1, start) * 256 + Get(data, pos + k - 1)
  }

  /** Read an unsigned word as a signed int. */
  function ToInt(x: int): int32 {
    var u := Wrap(x);
    if u < 0x8000_0000 then u else u - 0x1_0000_0000
  }

  /** asn_parse_int and asn_parse_unsigned_int: sign-extended from the first octet, cut to 32 bits. */
  function ParseNumber(data: seq<byte>, pos: nat, left: int, signed: bool): (r: Option<Parsed<int>>)
    ensures r.Some? ==> if signed then -0x8000_0000 <= r.value.value < 0x8000_0000 else 0 <= r.value.value < 0x1_0000_0000
  {
    match ParseLength(data, pos + 1)
    case None => None
    case Some((n, p)) =>
      if Wrap(n + (p - pos)) > Wrap(left) then None
      else if (if signed then n > 4 else n > 5 || (n == 5 && Get(data, p) != 0)) then None
      else
        var value := Accumulate(data, p, n, if Get(data, p) >= 0x80 then -1 else 0);
        Some(Parsed(if signed then ToInt(value) else Wrap(value), Get(data, pos), p + n, left - (n + (p - pos))))
  }

  /** Accumulating from a start value shifts it up and adds the encoded number. */
  lemma {:induction false} AccumulateOctets(data: seq<byte>, pos: nat, v: int, n: nat, start: int)
    requires HasAt(data, pos, Octets(v, n))
    ensures Accumulate(data, pos, n, start) == start * Pow256(n) + ModPow(v, n)
    decreases n
  {
    if n > 0 {
      HasParts(data, pos, Octets(v / 256, n - 1), [v % 256]);
      AccumulateOctets(data, pos, v / 256, n - 1, start);
      assert data[pos + n - 1] == data[pos + n - 1..pos + n][0];
      assert start * Pow256(n) == start * Pow256(n - 1) * 256;
    }
  }

  /** v modulo 256^n, built octet by octet. */
  function ModPow(v: int, n: nat): nat
    decreases n
  {
    if n == 0 then 0 else ModPow(v / 256, n - 1) * 256 + v % 256
  }

  lemma {:induction false} ModPowValue(v: int, n: nat)
    ensures 0 <= v < Pow256(n) ==> ModPow(v, n) == v
    ensures -Pow256(n) <= v < 0 ==> ModPow(v, n) == v + Pow256(n)
    decreases n
  {
    if n > 0 { ModPowValue(v / 256, n - 1); }
  }

  /** The first octet of an encoding that fits carries the sign. */
  lemma {:induction false} FirstOctet(v: int, n: nat)
    requires Fits(v, n)
    ensures Octets(v, n)[0] >= 0x80 <==> v < 0
    decreases n
  {
    if n > 1 {
      FirstOctet(v / 256, n - 1);
      assert Octets(v, n)[0] == Octets(v / 256, n - 1)[0];
    }
  }

  lemma MinLenFits(v: int)
    requires -0x8000_0000 <= v < 0x1_0000_0000
    ensures 1 <= MinLen(v) <= 5 && Fits(v, MinLen(v))
    ensures v < 0x8000_0000 ==> MinLen(v) <= 4
    ensures forall n :: 0 < n < MinLen(v) ==> !Fits(v, n)
    ensures MinLen(v) == 5 ==> 0 <= v
  {
    Pow256Values();
  }

  lemma ContentRoundTrip(data: seq<byte>, p: nat, v: int)
    requires -0x8000_0000 <= v < 0x1_0000_0000 && HasAt(data, p, Octets(v, MinLen(v)))
    ensures var n := MinLen(v);
            && Accumulate(data, p, n, if Get(data, p) >= 0x80 then -1 else 0) == v
            && (n == 5 ==> Get(data, p) == 0)
  {
    MinLenFits(v);
    var n := MinLen(v);
    FirstOctet(v, n);
    assert data[p] == data[p..p + n][0];
    AccumulateOctets(data, p, v, n, if v < 0 then -1 else 0);
    ModPowValue(v, n);
    assert Pow256(n) == 256 * Pow256(n - 1);
    if n == 5 { TopZero(v); }
  }

  /** Every number in range decodes to itself, signed or unsigned. */
  lemma NumberRoundTrip(data: seq<byte>, pos: nat, left: int, typ: byte, v: int, signed: bool)
    requires if signed then -0x8000_0000 <= v < 0x8000_0000 else 0 <= v < 0x1_0000_0000
    requires HasAt(data, pos, EncInt(typ, v)) && |EncInt(typ, v)| <= left < 0x8000_0000
    ensures ParseNumber(data, pos, left, signed) == Some(Parsed(v, typ, pos + |EncInt(typ, v)|, left - |EncInt(typ, v)|))
  {
    hide MinLen, Octets, Accumulate, ParseLength, Fits, Wrap, ToInt;
    MinLenFits(v);
    var n := MinLen(v);
    ReadPrefix(data, pos, typ, Octets(v, n));
    ContentRoundTrip(data, pos + 2, v);
    WrapSmall(n + 2);
    WrapSmall(left);
    WrapSmall(v);
  }

  lemma WrapSmall(x: int)
    ensures 0 <= x < 0x1_0000_0000 ==> Wrap(x) == x
    ensures -0x8000_0000 <= x < 0x8000_0000 ==> ToInt(x) == x
  {}

  lemma TopZero(v: int)
    requires 0 <= v < 0x1_0000_0000
    ensures Octets(v, 5)[0] == 0
  {
    assert Octets(v, 5)[0] == Octets(v / 256, 4)[0] == Octets(v / 256 / 256, 3)[0];
    assert Octets(v / 256 / 256, 3)[0] == Octets(v / 256 / 256 / 256, 2)[0] == Octets(v / 256 / 256 / 256 / 256, 1)[0];
  }
}
