/** The parsing loops of snmplib, each proved to compute the function it is specified by. */
module SnmpDecode {
  import opened Options
  import opened Buffers
  import opened Asn1
  import opened Asn1Oid
  import opened SnmpMessage

  lemma ShiftIn(x: int, b: byte)
    ensures ToInt(ToInt(x) * 256 + b) == ToInt(x * 256 + b)
    ensures Wrap(ToInt(x)) == Wrap(x)
  {
    var k := (x - ToInt(x)) / 0x1_0000_0000;
    assert x == ToInt(x) + 0x1_0000_0000 * k;
    Cut(ToInt(x) * 256 + b, 256 * k);
    Cut(ToInt(x), k);
  }

  lemma Cut(y: int, k: int)
    ensures Wrap(y + 0x1_0000_0000 * k) == Wrap(y) && ToInt(y + 0x1_0000_0000 * k) == ToInt(y)
  {}

  lemma AccumulateStep(data: seq<byte>, p: nat, i: nat, start: int)
    ensures Accumulate(data, p, i + 1, start) == Accumulate(data, p, i, start) * 256 + Get(data, p + i)
    ensures Accumulate(data, p, 0, start) == start
  {}

  /** asn_parse_int and asn_parse_unsigned_int; value is a 32-bit register. */
  method DecodeNumber(data: seq<byte>, pos: nat, left: int, signed: bool) returns (r: Option<Parsed<int>>)
    ensures r == ParseNumber(data, pos, left, signed)
  {
    hide Wrap, ToInt, Accumulate, ParseLength, Get;
    var h := ParseLength(data, pos + 1);
    if h.None? { return None; }
    var (n, p) := h.value;
    if Wrap(n + (p - pos)) > Wrap(left) { return None; }
    if signed && n > 4 { return None; }
    if !signed && (n > 5 || (n == 5 && Get(data, p) != 0)) { return None; }
    var start := if Get(data, p) >= 0x80 then -1 else 0;
    var value, i: nat, bufp := start, 0, p;
    AccumulateStep(data, p, 0, start);
    WrapSmall(start);
    while i < n
      invariant i <= n && bufp == p + i && value == ToInt(Accumulate(data, p, i, start))
    {
      AccumulateStep(data, p, i, start);
      ShiftIn(Accumulate(data, p, i, start), Get(data, bufp));
      value := ToInt(value * 256 + Get(data, bufp));
      bufp, i := bufp + 1, i + 1;
    }
    ShiftIn(Accumulate(data, p, n, start), 0);
    r := Some(Parsed(if signed then value else Wrap(value), Get(data, pos), bufp, left - (n + (p - pos))));
  }

  lemma SubIdStep(data: seq<byte>, pos: nat, acc: uint32)
    ensures var v := Wrap(acc * 128 + Get(data, pos) % 128);
            ParseSubId(data, pos, acc) == if Get(data, pos) >= 128 then ParseSubId(data, pos + 1, v) else (v, pos + 1)
  {}

  /** The inner loop of asn_parse_objid: shift and add the low seven bits of each octet. */
  method DecodeSubId(data: seq<byte>, pos: nat) returns (subid: uint32, bufp: nat)
    ensures (subid, bufp) == ParseSubId(data, pos, 0)
  {
    hide ParseSubId, Wrap;
    subid, bufp := 0, pos;
    SubIdStep(data, bufp, subid);
    subid := Wrap(subid * 128 + Get(data, bufp) % 128);
    while Get(data, bufp) >= 128
      invariant ParseSubId(data, pos, 0) == if Get(data, bufp) >= 128 then ParseSubId(data, bufp + 1, subid) else (subid, bufp + 1)
      decreases |data| - bufp
    {
      bufp := bufp + 1;
      SubIdStep(data, bufp, subid);
      subid := Wrap(subid * 128 + Get(data, bufp) % 128);
    }
    bufp := bufp + 1;
  }

  lemma SubIdsStep(data: seq<byte>, pos: nat, length: int, room: int)
    ensures pos < ParseSubId(data, pos, 0).1
    ensures length <= 0 || room <= 0 ==> ParseSubIds(data, pos, length, room) == ([], pos)
    ensures length > 0 && room > 0 ==>
              var (v, p) := ParseSubId(data, pos, 0);
              var rest := ParseSubIds(data, p, length - (p - pos), room - 1);
              ParseSubIds(data, pos, length, room) == ([v] + rest.0, rest.1)
  {
    ParseSubIdAdvances(data, pos, 0);
  }

  method DecodeObjid(data: seq<byte>, pos: nat, left: int, cap: int) returns (r: Option<Parsed<Oid>>)
    ensures r == ParseObjid(data, pos, left, cap)
  {
    hide ParseLength, ParseSubIds, ParseSubId, Wrap, SplitFirst, Get;
    var h := ParseLength(data, pos + 1);
    if h.None? { return None; }
    var (n, p) := h.value;
    if Wrap(n + (p - pos)) > Wrap(left) || n >= 0x8000_0000 { return None; }
    var length: int, room, bufp, subs: seq<uint32> := n, cap - 1, p, [];
    ghost var all := ParseSubIds(data, p, n, cap - 1);
    assert [] + all.0 == all.0;
    SubIdsStep(data, bufp, length, room);
    while length > 0 && room > 0
      invariant var rest := ParseSubIds(data, bufp, length, room); all == (subs + rest.0, rest.1)
      decreases length
    {
      SubIdsStep(data, bufp, length, room);
      var subid, q := DecodeSubId(data, bufp);
      ghost var rest := ParseSubIds(data, q, length - (q - bufp), room - 1);
      assert subs + ([subid] + rest.0) == subs + [subid] + rest.0;
      subs := subs + [subid];
      length, room, bufp := length - (q - bufp), room - 1, q;
    }
    SubIdsStep(data, bufp, length, room);
    assert subs + [] == subs;
    r := Some(Parsed(SplitFirst(subs), Get(data, pos), bufp, left - (n + (p - pos))));
  }

  method DecodeValue(data: seq<byte>, pos: nat, left: int) returns (r: Option<(Value, nat)>)
    ensures r == ParseValue(data, pos, left)
  {
    hide ParseHeader, ParseNumber, ParseString, ParseObjid;
    var h := ParseHeader(data, pos, left);
    if h.None? { return None; }
    var typ := h.value.typ;
    if typ == ASN_INTEGER {
      var x := DecodeNumber(data, pos, left, true);
      r := if x.None? then None else Some((IntV(x.value.value), x.value.pos));
    } else if IsUnsigned(typ) {
      var x := DecodeNumber(data, pos, left, false);
      r := if x.None? then None else Some((UIntV(x.value.typ, x.value.value), x.value.pos));
    } else if IsString(typ) {
      var x := ParseString(data, pos, left, left);
      r := if x.None? then None else Some((StrV(x.value.typ, x.value.value), x.value.pos));
    } else if typ == ASN_OBJECT_ID {
      var x := DecodeObjid(data, pos, left, MAX_NAME_LEN);
      r := if x.None? then None else Some((OidV(x.value.value), x.value.pos));
    } else if typ == ASN_NULL || IsException(typ) {
      r := Some((NullV(typ), h.value.pos));
    } else {
      r := None;
    }
  }

  /** Prepend the variables already decoded. */
  ghost function Prepend(vars: seq<Var>, r: Option<(seq<Var>, nat)>): Option<(seq<Var>, nat)> {
    match r
    case None => None
    case Some((rest, p)) => Some((vars + rest, p))
  }

  lemma VarsStep(data: seq<byte>, pos: nat, all: int)
    ensures all <= 0 ==> ParseVars(data, pos, all) == Some(([], pos))
    ensures var h := ParseHeader(data, pos, all);
            all > 0 && h.Some? ==> pos < h.value.pos && h.value.left >= 0
    ensures var h := ParseHeader(data, pos, all);
            all > 0 && (h.None? || h.value.typ != ASN_SEQUENCE || ParseBinding(data, h.value.pos, h.value.left).None?) ==>
              ParseVars(data, pos, all) == None
    ensures var h := ParseHeader(data, pos, all);
            all > 0 && h.Some? && h.value.typ == ASN_SEQUENCE && ParseBinding(data, h.value.pos, h.value.left).Some? ==>
              var (v, p) := ParseBinding(data, h.value.pos, h.value.left).value;
              ParseVars(data, pos, all) == Prepend([v], ParseVars(data, p, all - (h.value.left + (h.value.pos - pos))))
  {
    HeaderAdvances(data, pos, all);
    hide ParseHeader, ParseBinding;
  }

  lemma PrependTwice(a: seq<Var>, v: Var, r: Option<(seq<Var>, nat)>)
    ensures Prepend(a, Prepend([v], r)) == Prepend(a + [v], r)
  {
    if r.Some? { assert a + ([v] + r.value.0) == a + [v] + r.value.0; }
  }

  /** snmp_var_DecodeVarBind. */
  method DecodeVars(data: seq<byte>, pos: nat, left: int) returns (r: Option<(seq<Var>, nat)>)
    ensures r == ParseVarList(data, pos, left)
  {
    hide ParseHeader, ParseVars, ParseBinding, ParseObjid, ParseValue, Prepend;
    var top := ParseHeader(data, pos, left);
    if top.None? || top.value.typ != ASN_SEQUENCE { return None; }
    var bufp, all, vars: seq<Var> := top.value.pos, top.value.left, [];
    ghost var result := ParseVars(data, bufp, all);
    PrependNone(result);
    while all > 0
      invariant result == Prepend(vars, ParseVars(data, bufp, all))
    {
      PrependFails(vars);
      VarsStep(data, bufp, all);
      var h := ParseHeader(data, bufp, all);
      if h.None? || h.value.typ != ASN_SEQUENCE { return None; }
      var b := DecodeBinding(data, h.value.pos, h.value.left);
      if b.None? { return None; }
      var (v, p) := b.value;
      all := all - (h.value.left + (h.value.pos - bufp));
      PrependTwice(vars, v, ParseVars(data, p, all));
      bufp, vars := p, vars + [v];
    }
    VarsStep(data, bufp, all);
    PrependNothing(vars, bufp);
    r := Some((vars, bufp));
  }

  lemma PrependNone(r: Option<(seq<Var>, nat)>)
    ensures r == Prepend([], r)
  {
    if r.Some? { assert [] + r.value.0 == r.value.0; }
  }

  lemma PrependFails(vars: seq<Var>)
    ensures Prepend(vars, None) == None
  {}

  lemma PrependNothing(vars: seq<Var>, p: nat)
    ensures Prepend(vars, Some(([], p))) == Some((vars, p))
  {
    assert vars + [] == vars;
  }

  method DecodeBinding(data: seq<byte>, pos: nat, len: int) returns (r: Option<(Var, nat)>)
    ensures r == ParseBinding(data, pos, len)
  {
    hide ParseObjid, ParseValue;
    var name := DecodeObjid(data, pos, len, MAX_NAME_LEN);
    if name.None? || name.value.typ != ASN_OBJECT_ID { return None; }
    var v := DecodeValue(data, name.value.pos, name.value.left);
    r := if v.None? then None else Some((Var(name.value.value, v.value.0), v.value.1));
  }

  /** snmp_pdu_decode into pdu. */
  method DecodePdu(data: seq<byte>, pos: nat, left: int, into: Pdu) returns (r: Option<Parsed<Pdu>>)
    ensures r == ParsePdu(data, pos, left, into)
  {
    hide ParseHeader, ParseNumber;
    var h := ParseHeader(data, pos, left);
    if h.None? { return None; }
    ghost var q, l := h.value.pos, h.value.left;
    var pdu := into.(command := h.value.typ);
    var x := DecodeNumber(data, h.value.pos, h.value.left, true);
    IntsStep(data, q, l, 2);
    if x.None? { return None; }
    pdu := pdu.(reqid := x.value.value);
    IntsStep(data, x.value.pos, x.value.left, 1);
    var y := DecodeNumber(data, x.value.pos, x.value.left, true);
    if y.None? { return None; }
    IntsStep(data, y.value.pos, y.value.left, 0);
    var z := DecodeNumber(data, y.value.pos, y.value.left, true);
    if z.None? { return None; }
    if h.value.typ == SNMP_PDU_GETBULK {
      pdu := pdu.(nonRepeaters := y.value.value, maxRepetitions := z.value.value);
    } else {
      pdu := pdu.(errstat := y.value.value, errindex := z.value.value);
    }
    assert [x.value.value] + ([y.value.value] + ([z.value.value] + [])) == [x.value.value, y.value.value, z.value.value];
    hide ParseInts;
    r := Some(Parsed(pdu, h.value.typ, z.value.pos, z.value.left));
  }

  lemma IntsStep(data: seq<byte>, pos: nat, left: int, n: nat)
    ensures var x := ParseNumber(data, pos, left, true);
            ParseInts(data, pos, left, n + 1) ==
              if x.None? then None
              else var rest := ParseInts(data, x.value.pos, x.value.left, n);
                if rest.None? then None else Some(rest.value.(value := [x.value.value] + rest.value.value))
    ensures ParseInts(data, pos, left, 0) == Some(Parsed([], 0, pos, left))
  {}

  /**
   snmp_msg_Decode into a community buffer that the caller says has room for cap octets. The terminator is written
   behind the community; over says that this is outside the buffer.
   */
  method DecodeMessage(data: seq<byte>, left: int, comm: array<byte>, cap: int, into: Pdu)
    returns (r: Option<(Message, nat)>, over: bool)
    modifies comm
    ensures r == ParseMessage(data, left, cap, into)
    ensures var c := CommunityOf(data, left, cap);
            if c.None? then !over && comm[..] == old(comm[..])
            else
              && (over <==> comm.Length <= |c.value|)
              && (|c.value| <= comm.Length ==> comm[..|c.value|] == c.value)
              && (!over ==> comm[|c.value|] == 0 && Kept(old(comm[..]), comm[..], 0, |c.value| + 1))
    ensures comm.Length == cap < 0x8000_0000 ==>
              (over <==> CommunityOf(data, left, cap).Some? && |CommunityOf(data, left, cap).value| == cap)
  {
    hide ParseHeader, ParseNumber, ParseString, ParsePdu, ParseVarList;
    if 0 <= cap < 0x8000_0000 { CommunityFits(data, left, cap, into); }
    over := false;
    var h := ParseHeader(data, 0, left);
    if h.None? || h.value.typ != ASN_SEQUENCE { return None, over; }
    var version := DecodeNumber(data, h.value.pos, h.value.left, true);
    if version.None? { return None, over; }
    var community := ParseString(data, version.value.pos, version.value.left, cap);
    if community.None? { return None, over; }
    over := Terminate(comm, community.value.value);
    var pdu := DecodePdu(data, community.value.pos, community.value.left, into);
    if pdu.None? { return None, over; }
    var vars := DecodeVars(data, pdu.value.pos, pdu.value.left);
    if vars.None? { return None, over; }
    r := Some((Message(version.value.value, community.value.value, Store(pdu.value.value, vars.value.0)), vars.value.1));
  }

  /** The copy of the community, and "Community[*CommLenP] = '\0'". */
  method Terminate(comm: array<byte>, c: seq<byte>) returns (over: bool)
    modifies comm
    ensures over <==> comm.Length <= |c|
    ensures |c| <= comm.Length ==> comm[..|c|] == c
    ensures !over ==> comm[|c|] == 0 && Kept(old(comm[..]), comm[..], 0, |c| + 1)
  {
    if |c| <= comm.Length {
      forall i | 0 <= i < |c| { comm[i] := c[i]; }
    }
    over := comm.Length <= |c|;
    if !over { comm[|c|] := 0; }
  }
}
