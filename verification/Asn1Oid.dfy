/** Octet strings and object identifiers of snmplib/asn1.c. */
module Asn1Oid {
  import opened Options
  import opened Buffers
  import opened Asn1

  // ---------------------------------------------------------------- octet strings

  function EncString(typ: byte, s: seq<byte>): seq<byte> {
    EncHeader(typ, |s|, true) + s
  }

  /** n octets from pos on. */
  function Slice(data: seq<byte>, pos: nat, n: nat): (s: seq<byte>)
    ensures |s| == n
  {
    if n == 0 then [] else Slice(data, pos, n - 1) + [Get(data, pos + n - 1)]
  }

  lemma {:induction false} SliceHas(data: seq<byte>, pos: nat, s: seq<byte>)
    requires HasAt(data, pos, s)
    ensures Slice(data, pos, |s|) == s
  {
    if s != [] {
      var n := |s| - 1;
      assert s == s[..n] + [s[n]];
      HasParts(data, pos, s[..n], [s[n]]);
      SliceHas(data, pos, s[..n]);
      assert data[pos + n] == data[pos + n..pos + n + 1][0];
    }
  }

  /** asn_parse_string into a buffer of cap octets. */
  function ParseString(data: seq<byte>, pos: nat, left: int, cap: int): Option<Parsed<seq<byte>>> {
    match ParseLength(data, pos + 1)
    case None => None
    case Some((n, p)) =>
      if Wrap(n + (p - pos)) > Wrap(left) || n > Wrap(cap) then None
      else Some(Parsed(Slice(data, p, n), Get(data, pos), p + n, left - (n + (p - pos))))
  }

  lemma StringRoundTrip(data: seq<byte>, pos: nat, left: int, cap: int, typ: byte, s: seq<byte>)
    requires |s| < 0x1_0000 && HasAt(data, pos, EncString(typ, s)) && |EncString(typ, s)| <= left < 0x8000_0000
    requires |s| <= cap < 0x8000_0000
    ensures ParseString(data, pos, left, cap) == Some(Parsed(s, typ, pos + |EncString(typ, s)|, left - |EncString(typ, s)|))
  {
    hide Wrap, ParseLength, Slice, EncHeader, HasAt;
    var h := EncHeader(typ, |s|, true);
    ReadPrefix(data, pos, typ, s);
    SliceHas(data, pos + |h|, s);
    WrapSmall(|s| + |h|);
    WrapSmall(left);
    WrapSmall(cap);
  }

  lemma StringFits(data: seq<byte>, pos: nat, left: int, cap: int)
    requires 0 <= cap < 0x8000_0000
    ensures var s := ParseString(data, pos, left, cap); s.Some? ==> |s.value.value| <= cap
  {
    hide ParseLength;
    WrapSmall(cap);
  }

  // ---------------------------------------------------------------- sub-identifiers

  /** All groups of seven bits but the last, each with the continuation bit. */
  function SubIdHigh(m: nat): seq<byte> {
    if m == 0 then [] else SubIdHigh(m / 128) + [128 + m % 128]
  }

  /** A sub-identifier in the fewest octets (clause 8.19.2 of X.690). */
  function EncSubId(n: nat): seq<byte> {
    SubIdHigh(n / 128) + [n % 128]
  }

  function EncSubIds(s: seq<uint32>): seq<byte> {
    if s == [] then [] else EncSubId(s[0]) + EncSubIds(s[1..])
  }

  /** The do-loop that shifts in seven bits per octet until the continuation bit is clear. */
  function ParseSubId(data: seq<byte>, pos: nat, acc: uint32): (uint32, nat)
    decreases |data| - pos
  {
    var b := Get(data, pos);
    var v := Wrap(acc * 128 + b % 128);
    if b >= 128 then ParseSubId(data, pos + 1, v) else (v, pos + 1)
  }

  lemma ParseSubIdAdvances(data: seq<byte>, pos: nat, acc: uint32)
    ensures pos < ParseSubId(data, pos, acc).1
    decreases |data| - pos
  {
    if Get(data, pos) >= 128 { ParseSubIdAdvances(data, pos + 1, Wrap(acc * 128 + Get(data, pos) % 128)); }
  }

  /** while (length > 0 && (*objidlength)-- > 0): room is the number of sub-identifiers that still fit. */
  function ParseSubIds(data: seq<byte>, pos: nat, length: int, room: int): (seq<uint32>, nat)
    decreases length
  {
    if length <= 0 || room <= 0 then ([], pos)
    else
      var (v, p) := ParseSubId(data, pos, 0);
      ParseSubIdAdvances(data, pos, 0);
      var (rest, q) := ParseSubIds(data, p, length - (p - pos), room - 1);
      ([v] + rest, q)
  }

  /** Reading the high groups leaves the accumulator at their value, ready for the last octet. */
  lemma {:induction false} HighGroups(data: seq<byte>, pos: nat, m: nat)
    requires m < 0x200_0000 && HasAt(data, pos, SubIdHigh(m))
    ensures ParseSubId(data, pos, 0) == ParseSubId(data, pos + |SubIdHigh(m)|, m)
  {
    if m > 0 {
      HasParts(data, pos, SubIdHigh(m / 128), [128 + m % 128]);
      HighGroups(data, pos, m / 128);
      var q := pos + |SubIdHigh(m / 128)|;
      assert data[q] == data[q..q + 1][0];
      hide SubIdHigh, HasAt;
      GroupStep(data, q, m / 128, m % 128);
    }
  }

  /** An octet with the continuation bit adds seven bits and goes on. */
  lemma GroupStep(data: seq<byte>, q: nat, high: uint32, low: nat)
    requires Get(data, q) == 128 + low < 256 && high * 128 + low < 0x1_0000_0000
    ensures ParseSubId(data, q, high) == ParseSubId(data, q + 1, high * 128 + low)
  {
    WrapSmall(high * 128 + low);
  }

  /** The last octet has the continuation bit clear and ends the loop. */
  lemma LastOctet(data: seq<byte>, q: nat, high: uint32, low: nat)
    requires Get(data, q) == low < 128 && high * 128 + low < 0x1_0000_0000
    ensures ParseSubId(data, q, high) == (high * 128 + low, q + 1)
  {
    WrapSmall(high * 128 + low);
  }

  lemma SubIdRoundTrip(data: seq<byte>, pos: nat, n: uint32)
    requires HasAt(data, pos, EncSubId(n))
    ensures ParseSubId(data, pos, 0) == (n, pos + |EncSubId(n)|)
  {
    hide SubIdHigh, ParseSubId, Wrap;
    HasParts(data, pos, SubIdHigh(n / 128), [n % 128]);
    HighGroups(data, pos, n / 128);
    var q := pos + |SubIdHigh(n / 128)|;
    assert data[q] == data[q..q + 1][0];
    LastOctet(data, q, n / 128, n % 128);
  }

  lemma {:induction false} SubIdsRoundTrip(data: seq<byte>, pos: nat, s: seq<uint32>, room: int)
    requires HasAt(data, pos, EncSubIds(s)) && |s| <= room
    ensures ParseSubIds(data, pos, |EncSubIds(s)|, room) == (s, pos + |EncSubIds(s)|)
    decreases |s|
  {
    hide EncSubId, ParseSubId, HasAt;
    if s != [] {
      HasParts(data, pos, EncSubId(s[0]), EncSubIds(s[1..]));
      ParseSubIdAdvances(data, pos, 0);
      SubIdRoundTrip(data, pos, s[0]);
      SubIdsRoundTrip(data, pos + |EncSubId(s[0])|, s[1..], room - 1);
      assert s == [s[0]] + s[1..];
    }
  }

  // ---------------------------------------------------------------- object identifiers

  type Oid = seq<uint32>

  function FirstArcs(x: int, y: int): int {
    y + x * 40
  }

  /** The contents asn_build_objid produces; the first two arcs share an octet. */
  function ObjidContent(oid: Oid): seq<byte> {
    if |oid| < 2 then [0]
    else [(FirstArcs(oid[0], oid[1])) % 256] + EncSubIds(oid[2..])
  }

  function EncObjid(typ: byte, oid: Oid): seq<byte> {
    EncHeader(typ, |ObjidContent(oid)|, true) + ObjidContent(oid)
  }

  /** The sub-identifiers read, with the first one split into two arcs. */
  function SplitFirst(subs: seq<uint32>): Oid {
    if subs == [] then [0]
    else if subs[0] == 0x2B then [1, 3] + subs[1..]
    else [(subs[0] - subs[0] % 40) / 40 % 256, subs[0] % 40] + subs[1..]
  }

  /**
   asn_parse_objid into a buffer of cap sub-identifiers. A length of 2^31 or more can pass the bound check
   only when left is negative, which no caller brings about.
   */
  function ParseObjid(data: seq<byte>, pos: nat, left: int, cap: int): Option<Parsed<Oid>> {
    match ParseLength(data, pos + 1)
    case None => None
    case Some((n, p)) =>
      if Wrap(n + (p - pos)) > Wrap(left) || n >= 0x8000_0000 then None
      else
        var (subs, q) := ParseSubIds(data, p, n, cap - 1);
        Some(Parsed(SplitFirst(subs), Get(data, pos), q, left - (n + (p - pos))))
  }

  /** Object identifiers the codec can carry. */
  predicate OidOk(oid: Oid, cap: int) {
    2 <= |oid| <= cap && oid[1] < 40 && FirstArcs(oid[0], oid[1]) < 128
  }

  lemma ObjidRoundTrip(data: seq<byte>, pos: nat, left: int, cap: int, typ: byte, oid: Oid)
    requires OidOk(oid, cap) && |ObjidContent(oid)| < 0x1_0000
    requires HasAt(data, pos, EncObjid(typ, oid)) && |EncObjid(typ, oid)| <= left < 0x8000_0000
    ensures ParseObjid(data, pos, left, cap) == Some(Parsed(oid, typ, pos + |EncObjid(typ, oid)|, left - |EncObjid(typ, oid)|))
  {
    hide Wrap, ParseLength, ParseSubIds, EncSubIds, SplitFirst, EncHeader, ObjidContent, HasAt, Get;
    var content := ObjidContent(oid);
    var h := EncHeader(typ, |content|, true);
    ReadPrefix(data, pos, typ, content);
    var subs := [FirstArcs(oid[0], oid[1])] + oid[2..];
    ContentIsSubIds(oid);
    SubIdsRoundTrip(data, pos + |h|, subs, cap - 1);
    SplitsBack(oid);
    WrapSmall(|content| + |h|);
    WrapSmall(left);
  }

  /** The shared first octet is a sub-identifier like the others. */
  lemma ContentIsSubIds(oid: Oid)
    requires |oid| >= 2 && FirstArcs(oid[0], oid[1]) < 128
    ensures ObjidContent(oid) == EncSubIds([FirstArcs(oid[0], oid[1])] + oid[2..])
  {
    FirstSubId(FirstArcs(oid[0], oid[1]));
    SubIdsStep(FirstArcs(oid[0], oid[1]), oid[2..]);
  }

  lemma SubIdsStep(n: uint32, rest: seq<uint32>)
    ensures EncSubIds([n] + rest) == EncSubId(n) + EncSubIds(rest)
  {
    assert ([n] + rest)[1..] == rest;
  }

  lemma FirstSubId(n: nat)
    requires n < 128
    ensures EncSubId(n) == [n]
  {
    assert SubIdHigh(0) == [];
  }

  lemma SplitsBack(oid: Oid)
    requires 2 <= |oid| && oid[1] < 40 && FirstArcs(oid[0], oid[1]) < 128
    ensures SplitFirst([FirstArcs(oid[0], oid[1])] + oid[2..]) == oid
  {
    var subs := [FirstArcs(oid[0], oid[1])] + oid[2..];
    assert subs[1..] == oid[2..];
    assert oid == [oid[0], oid[1]] + oid[2..];
  }
}
