/**
 The octets of SNMP messages spelled out: what the specification of the encoder and the parsers in Asn1, Asn1Oid and
 SnmpMessage come to, tag by tag and length by length (clause 8 of ITU-T X.690, section 4 of RFC 1157, section 3 of
 RFC 1905). No constant of those modules is used here.
 */
module SnmpWire {
  import opened Options
  import opened Buffers
  import opened Powers
  import opened Asn1
  import opened Asn1Oid
  import opened SnmpMessage

  // ---------------------------------------------------------------- what is sent

  /** The definite form of a length, in as few octets as it takes. */
  function Length(n: nat): seq<byte> {
    if n < 128 then [n] else if n < 256 then [0x81, n] else [0x82, n / 256 % 256, n % 256]
  }

  function Primitive(tag: byte, content: seq<byte>): seq<byte> {
    [tag] + Length(|content|) + content
  }

  function Constructed(tag: byte, content: seq<byte>): seq<byte> {
    [tag, 0x82, |content| / 256 % 256, |content| % 256] + content
  }

  function Number(v: int): seq<byte> {
    Octets(v, MinLen(v))
  }

  function WireValue(version: int, v: Value): seq<byte> {
    match v
    case IntV(i) => Primitive(0x02, Number(i))
    case UIntV(t, u) => Primitive(t, Number(u))
    case StrV(t, s) => Primitive(t, s)
    case OidV(oid) => Primitive(0x06, ObjidContent(oid))
    case NullV(t) => if version == 0 && 0x80 <= t <= 0x82 then [0x80, 0] else [t, 0]
    case OtherV(_) => []
  }

  function WireVars(version: int, vars: seq<Var>): seq<byte> {
    if vars == [] then []
    else
      Constructed(0x30, Primitive(0x06, ObjidContent(vars[0].name)) + WireValue(version, vars[0].value))
      + WireVars(version, vars[1..])
  }

  /** Request id, then non-repeaters and max-repetitions of a GetBulk, or error status and error index. */
  function WirePdu(version: int, pdu: Pdu): seq<byte> {
    Constructed(pdu.command,
      Primitive(0x02, Number(pdu.reqid))
      + (Primitive(0x02, Number(if pdu.command == 0xA5 then pdu.nonRepeaters else pdu.errstat))
         + Primitive(0x02, Number(if pdu.command == 0xA5 then pdu.maxRepetitions else pdu.errindex)))
      + Constructed(0x30, WireVars(version, pdu.variables)))
  }

  function WireMessage(m: Message): seq<byte> {
    Constructed(0x30, Primitive(0x02, Number(m.version)) + (Primitive(0x04, m.community) + WirePdu(m.version, m.pdu)))
  }

  lemma ValueOnWire(version: int, v: Value)
    ensures EncValue(version, v) == WireValue(version, v)
    ensures Supported(v) <==>
              match v
              case UIntV(t, _) => t == 0x41 || t == 0x42 || t == 0x43
              case StrV(t, _) => t == 0x04 || t == 0x40 || t == 0x44
              case NullV(t) => t == 0x05 || t == 0x80 || t == 0x81 || t == 0x82
              case OtherV(_) => false
              case _ => true
  {
    hide Octets, MinLen, ObjidContent;
  }

  lemma {:induction false} VarsOnWire(version: int, vars: seq<Var>)
    ensures EncVars(version, vars) == WireVars(version, vars)
  {
    if vars != [] {
      ValueOnWire(version, vars[0].value);
      hide ObjidContent, EncValue, WireValue;
      VarsOnWire(version, vars[1..]);
    }
  }

  /** The octets of every message. */
  lemma MessageOnWire(m: Message)
    ensures EncMessage(m) == WireMessage(m)
  {
    hide Octets, MinLen;
    VarsOnWire(m.version, m.pdu.variables);
    hide EncVars, WireVars;
    assert EncPduFields(m.pdu) == Primitive(0x02, Number(m.pdu.reqid)) + (Primitive(0x02, Number(Second(m.pdu))) + Primitive(0x02, Number(Third(m.pdu))));
    assert EncPdu(m.version, m.pdu) == WirePdu(m.version, m.pdu);
  }

  /** Where a reader of the packet finds the tags of version and community. */
  lemma FirstTags(m: Message)
    ensures var e := EncMessage(m); |e| > 6 && e[0] == 0x30 && e[1] == 0x82 && e[4] == 0x02
    ensures var e := EncMessage(m); |e| > 6 + e[5] && e[6 + e[5]] == 0x04
  {
    MessageOnWire(m);
    ShortNumber(m.version);
    var v, c := Primitive(0x02, Number(m.version)), Primitive(0x04, m.community);
    var rest := c + WirePdu(m.version, m.pdu);
    ConstructedAt(0x30, v + rest);
    PrimitiveAt(0x02, Number(m.version));
    PrimitiveAt(0x04, m.community);
    hide Number, WirePdu, Primitive, Constructed;
    var e := EncMessage(m);
    assert e == Constructed(0x30, v + rest);
    hide EncMessage, WireMessage;
    assert (v + rest)[0] == v[0] && (v + rest)[1] == v[1] && (v + rest)[|v|] == rest[0] == c[0];
  }

  lemma ConstructedAt(tag: byte, content: seq<byte>)
    ensures var e := Constructed(tag, content);
            |e| == 4 + |content| && e[0] == tag && e[1] == 0x82 && forall i :: 0 <= i < |content| ==> e[4 + i] == content[i]
  {}

  lemma PrimitiveAt(tag: byte, content: seq<byte>)
    ensures var e := Primitive(tag, content);
            |e| >= 2 + |content| && e[0] == tag && (|content| < 128 ==> e[1] == |content| && |e| == 2 + |content|)
  {}

  lemma ShortNumber(v: int)
    ensures 1 <= |Number(v)| <= 5
  {}

  // ---------------------------------------------------------------- contents

  /** The value of octets, the most significant first. */
  function Unsigned(s: seq<byte>): nat {
    if s == [] then 0 else Unsigned(s[..|s| - 1]) * 256 + s[|s| - 1]
  }

  /** Integers are in two's complement, in the fewest octets: the first nine bits are not all the same. */
  lemma NumberOnWire(v: int)
    requires -0x8000_0000 <= v < 0x1_0000_0000
    ensures var s := Number(v);
            && 1 <= |s| <= 5
            && v == (if s[0] < 128 then Unsigned(s) else Unsigned(s) - Pow256(|s|))
            && (|s| > 1 ==> !(s[0] == 0 && s[1] < 128) && !(s[0] == 255 && s[1] >= 128))
  {
    MinLenFits(v);
    var n := MinLen(v);
    FirstOctet(v, n);
    UnsignedOctets(v, n);
    ModPowValue(v, n);
    TopTwo(v, n);
    assert Pow256(n) == 256 * Pow256(n - 1);
  }

  lemma {:induction false} UnsignedOctets(v: int, n: nat)
    ensures Unsigned(Octets(v, n)) == ModPow(v, n)
    decreases n
  {
    if n > 0 {
      UnsignedOctets(v / 256, n - 1);
      assert Octets(v, n)[..n - 1] == Octets(v / 256, n - 1);
    }
  }

  /** If the first two octets only repeat the sign, one octet fewer would do. */
  lemma {:induction false} TopTwo(v: int, n: nat)
    requires n > 1 ==> Fits(v, n) && !Fits(v, n - 1)
    ensures n > 1 ==> !(Octets(v, n)[0] == 0 && Octets(v, n)[1] < 128) && !(Octets(v, n)[0] == 255 && Octets(v, n)[1] >= 128)
    decreases n
  {
    if n == 2 {
      assert Octets(v, 2) == [v / 256 % 256, v % 256];
    } else if n > 2 {
      assert Pow256(n - 1) == 256 * Pow256(n - 2) && Pow256(n - 2) == 256 * Pow256(n - 3);
      TopTwo(v / 256, n - 1);
      assert Octets(v, n)[0] == Octets(v / 256, n - 1)[0] && Octets(v, n)[1] == Octets(v / 256, n - 1)[1];
    }
  }

  /** The value of groups of seven bits. */
  function Groups(s: seq<byte>): nat {
    if s == [] then 0 else Groups(s[..|s| - 1]) * 128 + s[|s| - 1] % 128
  }

  /** A sub-identifier: seven bits an octet, bit 8 set in all but the last, and no leading zero group. */
  lemma SubIdOnWire(n: nat)
    ensures var s := EncSubId(n);
            && |s| >= 1 && Groups(s) == n && s[|s| - 1] < 128 && s[0] != 0x80
            && forall i :: 0 <= i < |s| - 1 ==> s[i] >= 128
  {
    HighOnWire(n / 128);
    var h := SubIdHigh(n / 128);
    GroupsLast(h, n % 128);
    hide SubIdHigh, Groups;
  }

  lemma GroupsLast(h: seq<byte>, g: nat)
    requires g < 128
    ensures Groups(h + [g]) == Groups(h) * 128 + g
  {
    assert (h + [g])[..|h|] == h;
  }

  lemma GroupsStep(h: seq<byte>, g: nat)
    requires g < 128
    ensures Groups(h + [128 + g]) == Groups(h) * 128 + g
  {
    assert (h + [128 + g])[..|h|] == h;
  }

  lemma NoHigh(m: nat)
    ensures SubIdHigh(m) == [] <==> m == 0
  {}

  lemma {:induction false} HighOnWire(m: nat)
    ensures var s := SubIdHigh(m);
            && Groups(s) == m && (s != [] ==> s[0] != 0x80) && forall i :: 0 <= i < |s| ==> s[i] >= 128
  {
    if m > 0 {
      HighOnWire(m / 128);
      var s, h := SubIdHigh(m), SubIdHigh(m / 128);
      assert s == h + [128 + m % 128] && s[..|s| - 1] == h;
      GroupsStep(h, m % 128);
      hide SubIdHigh, Groups;
      assert h == [] <==> m / 128 == 0 by { NoHigh(m / 128); }
    }
  }

  /** The first two arcs share an octet, the others follow one by one; fewer than two arcs are sent as 0. */
  lemma ObjidOnWire(oid: Oid)
    ensures |oid| < 2 ==> ObjidContent(oid) == [0]
    ensures |oid| >= 2 ==> ObjidContent(oid) == [(40 * (oid[0] as int) + oid[1] as int) % 256] + EncSubIds(oid[2..])
    ensures |oid| > 2 ==> EncSubIds(oid[2..]) == EncSubId(oid[2]) + EncSubIds(oid[3..])
    ensures EncSubIds([]) == []
  {
    assert |oid| > 2 ==> oid[2..][1..] == oid[3..];
  }

  // ---------------------------------------------------------------- what is read

  predicate LengthIs(r: Option<(nat, nat)>, n: int, p: int) {
    r.Some? && r.value.0 == n && r.value.1 == p
  }

  /** One octet up to 127, or 0x81 to 0x84 and so many octets; the indefinite and longer forms are refused. */
  lemma LengthRead(data: seq<byte>, pos: nat)
    requires pos + 5 <= |data|
    ensures var r, b, d1, d2, d3, d4 := ParseLength(data, pos), data[pos], data[pos + 1] as int, data[pos + 2] as int, data[pos + 3] as int, data[pos + 4];
            if b < 128 then LengthIs(r, b, pos + 1)
            else if b == 0x81 then LengthIs(r, d1, pos + 2)
            else if b == 0x82 then LengthIs(r, d1 * 0x100 + d2, pos + 3)
            else if b == 0x83 then LengthIs(r, d1 * 0x1_0000 + d2 * 0x100 + d3, pos + 4)
            else if b == 0x84 then LengthIs(r, d1 * 0x100_0000 + d2 * 0x1_0000 + d3 * 0x100 + d4, pos + 5)
            else r == None
  {
    var p, d1, d2, d3 := pos + 1, data[pos + 1] as int, data[pos + 2] as int, data[pos + 3] as int;
    assert BigEndian(data, p, 1) == d1;
    assert BigEndian(data, p, 2) == d1 * 0x100 + d2;
    assert BigEndian(data, p, 3) == d1 * 0x1_0000 + d2 * 0x100 + d3;
    assert BigEndian(data, p, 4) == d1 * 0x100_0000 + d2 * 0x1_0000 + d3 * 0x100 + data[p + 3];
  }

  /** The length behind the type octet at pos, its place, and where the contents start. */
  ghost predicate Starts(data: seq<byte>, pos: nat, n: nat, p: nat) {
    ParseLength(data, pos + 1) == Some((n, p)) && pos + 2 <= p <= pos + 6 && pos < |data|
  }

  lemma StartsRight(data: seq<byte>, pos: nat)
    requires pos + 6 <= |data|
    ensures var r := ParseLength(data, pos + 1); r.Some? ==> Starts(data, pos, r.value.0, r.value.1) && r.value.0 < 0x1_0000_0000
  {
    LengthRead(data, pos + 1);
  }

  /** A header is read if its tag has one octet, and its length at most 524288 and what is left. */
  lemma HeaderRead(data: seq<byte>, pos: nat, left: int, n: nat, p: nat)
    requires Starts(data, pos, n, p) && n < 0x1_0000_0000 && 0 <= left < 0x8000_0000
    ensures ParseHeader(data, pos, left) ==
              if data[pos] % 32 != 31 && n <= 0x8_0000 && n + (p - pos) <= left then Some(Parsed((), data[pos], p, n)) else None
  {
    hide ParseLength;
  }

  lemma NoLength(data: seq<byte>, pos: nat, left: int, cap: int, signed: bool)
    requires ParseLength(data, pos + 1).None?
    ensures ParseHeader(data, pos, left).None? && ParseNumber(data, pos, left, signed).None?
    ensures ParseString(data, pos, left, cap).None? && ParseObjid(data, pos, left, cap).None?
  {}

  /** Two's complement; 4 octets at most, or 5 of an unsigned number that starts with 0. */
  lemma NumberRead(data: seq<byte>, pos: nat, left: int, signed: bool, n: nat, p: nat)
    requires Starts(data, pos, n, p) && 0 < n < 0x1_0000_0000 && p + n <= |data| && 0 <= left < 0x8000_0000
    ensures var r := ParseNumber(data, pos, left, signed);
            var u := Unsigned(data[p..p + n]);
            var v := if data[p] < 128 then u else u - Pow256(n);
            && (r.Some? <==> n + (p - pos) <= left && (n <= 4 || (!signed && n == 5 && data[p] == 0)))
            && (r.Some? && signed ==> r.value.value == v)
            && (r.Some? && !signed ==> r.value.value == if v < 0 then v + 0x1_0000_0000 else v)
            && (r.Some? ==> r.value.typ == data[pos] && r.value.pos == p + n && r.value.left == left - n - (p - pos))
  {
    hide ParseLength, Unsigned, Accumulate;
    if n <= 5 {
      Accumulated(data, p, n, if data[p] >= 128 then -1 else 0);
      SignOctet(data[p..p + n]);
      Pow256Values();
      assert n == 1 || n == 2 || n == 3 || n == 4 || n == 5;
    }
  }

  lemma {:induction false} Accumulated(data: seq<byte>, p: nat, n: nat, start: int)
    requires p + n <= |data|
    ensures Accumulate(data, p, n, start) == start * Pow256(n) + Unsigned(data[p..p + n])
  {
    if n > 0 {
      Accumulated(data, p, n - 1, start);
      assert data[p..p + n][..n - 1] == data[p..p + n - 1];
      assert start * Pow256(n) == start * Pow256(n - 1) * 256;
    }
  }

  lemma {:induction false} UnsignedBelow(s: seq<byte>)
    ensures Unsigned(s) < Pow256(|s|)
  {
    if s != [] { UnsignedBelow(s[..|s| - 1]); }
  }

  lemma {:induction false} UnsignedFront(s: seq<byte>)
    requires s != []
    ensures Unsigned(s) == s[0] * Pow256(|s| - 1) + Unsigned(s[1..])
  {
    if |s| > 1 {
      UnsignedFront(s[..|s| - 1]);
      assert s[..|s| - 1][1..] == s[1..][..|s| - 2];
      assert s[0] * Pow256(|s| - 1) == s[0] * Pow256(|s| - 2) * 256;
    } else {
      assert s[..0] == [] && s[1..] == [];
    }
  }

  /** The first octet decides the sign. */
  lemma SignOctet(s: seq<byte>)
    requires 1 <= |s| <= 5
    ensures Unsigned(s) < Pow256(|s|)
    ensures if s[0] < 128 then Unsigned(s) < 128 * Pow256(|s| - 1) else 128 * Pow256(|s| - 1) <= Unsigned(s)
    ensures s[0] == 0 ==> Unsigned(s) < Pow256(|s| - 1)
  {
    UnsignedFront(s);
    UnsignedBelow(s);
    UnsignedBelow(s[1..]);
    hide Unsigned, Pow256;
    var q, c := Pow256(|s| - 1), s[0] as int;
    if c < 128 { Mul(c, 127, q); } else { Mul(128, c, q); }
  }

  lemma Mul(x: nat, y: nat, q: nat)
    requires x <= y
    ensures x * q <= y * q
  {}

  /** The octets of a string, if they are all there and the receiver has room. */
  lemma StringRead(data: seq<byte>, pos: nat, left: int, cap: int, n: nat, p: nat)
    requires Starts(data, pos, n, p) && p + n <= |data| < 0x8000_0000 && 0 <= left < 0x8000_0000 && 0 <= cap < 0x8000_0000
    ensures ParseString(data, pos, left, cap) ==
              if n + (p - pos) <= left && n <= cap then Some(Parsed(data[p..p + n], data[pos], p + n, left - n - (p - pos))) else None
  {
    hide ParseLength, Slice;
    SliceHas(data, p, data[p..p + n]);
  }

  /** Seven bits an octet, up to the first without bit 8, cut to 32 bits. */
  lemma {:induction false} SubIdRead(data: seq<byte>, pos: nat, k: nat, acc: uint32)
    requires pos + k < |data| && (forall i :: pos <= i < pos + k ==> data[i] >= 128) && data[pos + k] < 128
    ensures ParseSubId(data, pos, acc)
         == ((acc * Pow128(k + 1) + Groups(data[pos..pos + k + 1])) % 0x1_0000_0000, pos + k + 1)
    decreases k
  {
    var b := data[pos] % 128;
    var x := acc * 128 + b;
    GroupsFront(data[pos..pos + k + 1]);
    assert data[pos..pos + k + 1][1..] == data[pos + 1..pos + 1 + k];
    var g := Groups(data[pos + 1..pos + 1 + k]);
    Distribute(acc, b, Pow128(k), g);
    if k == 0 {
      assert data[pos + 1..pos + 1] == [];
    } else {
      hide Groups;
      SubIdRead(data, pos + 1, k - 1, Wrap(x));
      Carried(x, Pow128(k), g);
    }
  }

  lemma Distribute(acc: nat, b: nat, f: nat, g: nat)
    ensures acc * (128 * f) + (b * f + g) == (acc * 128 + b) * f + g
  {}

  function Pow128(k: nat): nat {
    if k == 0 then 1 else 128 * Pow128(k - 1)
  }

  lemma {:induction false} GroupsFront(s: seq<byte>)
    requires s != []
    ensures Groups(s) == s[0] % 128 * Pow128(|s| - 1) + Groups(s[1..])
  {
    if |s| > 1 {
      GroupsFront(s[..|s| - 1]);
      assert s[..|s| - 1][1..] == s[1..][..|s| - 2];
      assert s[0] % 128 * Pow128(|s| - 1) == s[0] % 128 * Pow128(|s| - 2) * 128;
    } else {
      assert s[..0] == [] && s[1..] == [];
    }
  }

  /** Cutting to 32 bits before or after. */
  lemma Carried(x: nat, f: nat, g: nat)
    ensures (x % 0x1_0000_0000 * f + g) % 0x1_0000_0000 == (x * f + g) % 0x1_0000_0000
  {
    var q, r := x / 0x1_0000_0000, x % 0x1_0000_0000;
    assert x * f + g == (r * f + g) + 0x1_0000_0000 * (q * f);
    Multiples(r * f + g, q * f);
  }

  lemma Multiples(y: nat, k: nat)
    ensures (y + 0x1_0000_0000 * k) % 0x1_0000_0000 == y % 0x1_0000_0000
  {}

  /** The first sub-identifier gives the first two arcs; 43 is always 1.3. */
  lemma ArcsRead(subs: seq<uint32>)
    ensures subs == [] ==> SplitFirst(subs) == [0]
    ensures subs != [] && subs[0] == 43 ==> SplitFirst(subs) == [1, 3] + subs[1..]
    ensures subs != [] && subs[0] < 10240 ==> SplitFirst(subs) == [subs[0] / 40, subs[0] % 40] + subs[1..]
  {}

  /** An identifier is read whatever its tag, of one sub-identifier fewer than the receiver has room for arcs. */
  lemma ObjidRead(data: seq<byte>, pos: nat, left: int, cap: int, n: nat, p: nat)
    requires Starts(data, pos, n, p) && n < 0x8000_0000 && 0 <= left < 0x8000_0000
    ensures ParseObjid(data, pos, left, cap) ==
              if n + (p - pos) <= left then
                var (subs, q) := ParseSubIds(data, p, n, cap - 1);
                Some(Parsed(SplitFirst(subs), data[pos], q, left - n - (p - pos)))
              else None
  {
    hide ParseLength, ParseSubIds, SplitFirst;
  }

  /** A value by its tag, all others being refused. */
  lemma ValueRead(data: seq<byte>, pos: nat, left: int)
    requires pos < |data|
    ensures var h, r, t := ParseHeader(data, pos, left), ParseValue(data, pos, left), data[pos];
            var i, u := ParseNumber(data, pos, left, true), ParseNumber(data, pos, left, false);
            var s, o := ParseString(data, pos, left, left), ParseObjid(data, pos, left, 64);
            if h.None? then r == None
            else if t == 0x02 then r == if i.None? then None else Some((IntV(i.value.value), i.value.pos))
            else if t == 0x41 || t == 0x42 || t == 0x43 then r == if u.None? then None else Some((UIntV(t, u.value.value), u.value.pos))
            else if t == 0x04 || t == 0x40 || t == 0x44 then r == if s.None? then None else Some((StrV(t, s.value.value), s.value.pos))
            else if t == 0x06 then r == if o.None? then None else Some((OidV(o.value.value), o.value.pos))
            else if t == 0x05 || t == 0x80 || t == 0x81 || t == 0x82 then r == Some((NullV(t), h.value.pos))
            else r == None
  {
    TagRead(data, pos, left);
    hide ParseLength, Accumulate, Slice, ParseSubIds, SplitFirst, Wrap, ToInt;
  }

  lemma TagRead(data: seq<byte>, pos: nat, left: int)
    requires pos < |data|
    ensures ParseHeader(data, pos, left).Some? ==> ParseHeader(data, pos, left).value.typ == data[pos]
  {}

  /** A binding is a name of tag 0x06 and a value; bindings and their list have tag 0x30. */
  lemma BindingsRead(data: seq<byte>, pos: nat, left: int)
    requires pos < |data|
    ensures ParseBinding(data, pos, left).Some? ==> data[pos] == 0x06
    ensures left > 0 && ParseVars(data, pos, left).Some? ==> data[pos] == 0x30
    ensures ParseVarList(data, pos, left).Some? ==> data[pos] == 0x30
  {
    TagRead(data, pos, left);
    hide ParseHeader, ParseSubIds, SplitFirst, ParseLength, ParseValue;
  }

  /** The tag of a PDU is its command; that of GetBulk decides where the second and third number go. */
  lemma PduRead(data: seq<byte>, pos: nat, left: int, into: Pdu)
    requires pos < |data| && ParsePdu(data, pos, left, into).Some?
    ensures var h := ParseHeader(data, pos, left); h.Some? && ParseInts(data, h.value.pos, h.value.left, 3).Some?
    ensures var h := ParseHeader(data, pos, left).value;
            var x := ParseInts(data, h.pos, h.left, 3).value.value;
            var p := into.(command := data[pos], reqid := x[0]);
            ParsePdu(data, pos, left, into).value.value ==
              if data[pos] == 0xA5 then p.(nonRepeaters := x[1], maxRepetitions := x[2]) else p.(errstat := x[1], errindex := x[2])
  {
    TagRead(data, pos, left);
    hide ParseHeader, ParseInts;
  }

  lemma MessageRead(data: seq<byte>, left: int, cap: int, into: Pdu)
    requires data != [] && ParseMessage(data, left, cap, into).Some?
    ensures data[0] == 0x30
  {
    TagRead(data, 0, left);
    hide ParseHeader, ParseNumber, ParseString, ParsePdu, ParseVarList;
  }
}
