/** snmp_msg_Decode undoes snmp_msg_Encode. */
module SnmpRoundTrip {
  import opened Options
  import opened Buffers
  import opened Asn1
  import opened Asn1Oid
  import opened SnmpMessage

  /** Values and variables that survive the trip. */
  predicate ValueOk(v: Value) {
    Supported(v) && (v.OidV? ==> OidOk(v.oid, MAX_NAME_LEN))
  }

  predicate VarOk(v: Var) {
    OidOk(v.name, MAX_NAME_LEN) && ValueOk(v.value)
  }

  /** A header followed by its contents is read by asn_parse_header. */
  lemma ReadHeader(data: seq<byte>, pos: nat, left: int, typ: byte, content: seq<byte>, truth: bool)
    requires typ % 32 != 31 && |content| < 0x1_0000
    requires HasAt(data, pos, EncHeader(typ, |content|, truth) + content)
    requires |EncHeader(typ, |content|, truth) + content| <= left < 0x8000_0000
    ensures var p := pos + |EncHeader(typ, |content|, truth)|;
            && ParseHeader(data, pos, left) == Some(Parsed((), typ, p, |content|))
            && HasAt(data, p, content)
  {
    hide ParseHeader;
    HasParts(data, pos, EncHeader(typ, |content|, truth), content);
    HeaderRoundTrip(data, pos, left, typ, |content|, truth);
  }

  lemma NumberOk(data: seq<byte>, pos: nat, left: int, typ: byte, v: int, signed: bool)
    requires if signed then -0x8000_0000 <= v < 0x8000_0000 else 0 <= v < 0x1_0000_0000
    requires HasAt(data, pos, EncInt(typ, v)) && |EncInt(typ, v)| <= left < 0x8000_0000 && typ % 32 != 31
    ensures ParseNumber(data, pos, left, signed) == Some(Parsed(v, typ, pos + |EncInt(typ, v)|, left - |EncInt(typ, v)|))
    ensures ParseHeader(data, pos, left).Some? && ParseHeader(data, pos, left).value.typ == typ
  {
    hide ParseNumber, ParseHeader, EncHeader, MinLen, Octets;
    NumberRoundTrip(data, pos, left, typ, v, signed);
    MinLenFits(v);
    ReadHeader(data, pos, left, typ, Octets(v, MinLen(v)), true);
  }

  lemma StringValue(data: seq<byte>, pos: nat, left: int, t: byte, s: seq<byte>)
    requires IsString(t) && |EncString(t, s)| < 0x1_0000
    requires HasAt(data, pos, EncString(t, s)) && |EncString(t, s)| <= left < 0x8000_0000
    ensures ParseValue(data, pos, left) == Some((StrV(t, s), pos + |EncString(t, s)|))
  {
    hide ParseNumber, ParseHeader, ParseString, ParseObjid, EncHeader, HasAt;
    StringRoundTrip(data, pos, left, left, t, s);
    ReadHeader(data, pos, left, t, s, true);
  }

  lemma ObjidValue(data: seq<byte>, pos: nat, left: int, oid: Oid)
    requires OidOk(oid, MAX_NAME_LEN) && |EncObjid(ASN_OBJECT_ID, oid)| < 0x1_0000
    requires HasAt(data, pos, EncObjid(ASN_OBJECT_ID, oid)) && |EncObjid(ASN_OBJECT_ID, oid)| <= left < 0x8000_0000
    ensures ParseValue(data, pos, left) == Some((OidV(oid), pos + |EncObjid(ASN_OBJECT_ID, oid)|))
  {
    hide ParseNumber, ParseHeader, ParseString, ParseObjid, EncHeader, ObjidContent, OidOk, HasAt;
    ObjidRoundTrip(data, pos, left, MAX_NAME_LEN, ASN_OBJECT_ID, oid);
    ReadHeader(data, pos, left, ASN_OBJECT_ID, ObjidContent(oid), true);
  }

  lemma NullValue(data: seq<byte>, pos: nat, left: int, t: byte)
    requires t == ASN_NULL || IsException(t)
    requires HasAt(data, pos, EncHeader(t, 0, true)) && |EncHeader(t, 0, true)| <= left < 0x8000_0000
    ensures ParseValue(data, pos, left) == Some((NullV(t), pos + |EncHeader(t, 0, true)|))
  {
    hide ParseNumber, ParseHeader, ParseString, ParseObjid, EncHeader, HasAt;
    assert EncHeader(t, 0, true) + [] == EncHeader(t, 0, true);
    ReadHeader(data, pos, left, t, [], true);
  }

  lemma ValueRoundTrip(data: seq<byte>, pos: nat, left: int, version: int, v: Value)
    requires ValueOk(v) && |EncValue(version, v)| < 0x1_0000
    requires HasAt(data, pos, EncValue(version, v)) && |EncValue(version, v)| <= left < 0x8000_0000
    ensures ParseValue(data, pos, left) == Some((Normal(version, v), pos + |EncValue(version, v)|))
  {
    hide ParseNumber, ParseHeader, ParseString, ParseObjid, EncHeader, EncInt, EncString, EncObjid, OidOk, HasAt;
    match v
    case IntV(i) => NumberOk(data, pos, left, ASN_INTEGER, i, true);
    case UIntV(t, u) => NumberOk(data, pos, left, t, u, false);
    case StrV(t, s) => StringValue(data, pos, left, t, s);
    case OidV(oid) => ObjidValue(data, pos, left, oid);
    case NullV(t) => NullValue(data, pos, left, Normal(version, v).typ);
  }

  lemma BindingRoundTrip(data: seq<byte>, pos: nat, version: int, v: Var)
    requires VarOk(v) && |VarContent(version, v)| < 0x1_0000 && HasAt(data, pos, VarContent(version, v))
    ensures ParseBinding(data, pos, |VarContent(version, v)|)
         == Some((v.(value := Normal(version, v.value)), pos + |VarContent(version, v)|))
  {
    hide ParseValue, ParseObjid, EncObjid, EncValue, ValueOk, OidOk;
    var len := |VarContent(version, v)|;
    var n := EncObjid(ASN_OBJECT_ID, v.name);
    HasParts(data, pos, n, EncValue(version, v.value));
    ContentShorter(ASN_OBJECT_ID, v.name);
    ObjidRoundTrip(data, pos, len, MAX_NAME_LEN, ASN_OBJECT_ID, v.name);
    ValueRoundTrip(data, pos + |n|, len - |n|, version, v.value);
  }

  lemma ContentShorter(typ: byte, oid: Oid)
    ensures |ObjidContent(oid)| < |EncObjid(typ, oid)|
  {}

  function NormalVars(version: int, vars: seq<Var>): (r: seq<Var>)
    ensures |r| == |vars|
  {
    if vars == [] then [] else [vars[0].(value := Normal(version, vars[0].value))] + NormalVars(version, vars[1..])
  }

  lemma {:induction false} VarsRoundTrip(data: seq<byte>, pos: nat, version: int, vars: seq<Var>)
    requires (forall v <- vars :: VarOk(v)) && |EncVars(version, vars)| < 0x1_0000
    requires HasAt(data, pos, EncVars(version, vars))
    ensures ParseVars(data, pos, |EncVars(version, vars)|) == Some((NormalVars(version, vars), pos + |EncVars(version, vars)|))
    decreases |vars|
  {
    hide ParseHeader, ParseBinding, VarContent, EncHeader, VarOk;
    if vars != [] {
      var e := EncVar(version, vars[0]);
      HasParts(data, pos, e, EncVars(version, vars[1..]));
      HeaderSize(ASN_SEQUENCE, |VarContent(version, vars[0])|);
      ReadHeader(data, pos, |EncVars(version, vars)|, ASN_SEQUENCE, VarContent(version, vars[0]), false);
      BindingRoundTrip(data, pos + 4, version, vars[0]);
      VarsRoundTrip(data, pos + |e|, version, vars[1..]);
    }
  }

  lemma VarListRoundTrip(data: seq<byte>, pos: nat, left: int, version: int, vars: seq<Var>)
    requires (forall v <- vars :: VarOk(v)) && |EncVarList(version, vars)| < 0x1_0000
    requires HasAt(data, pos, EncVarList(version, vars)) && |EncVarList(version, vars)| <= left < 0x8000_0000
    ensures ParseVarList(data, pos, left) == Some((NormalVars(version, vars), pos + |EncVarList(version, vars)|))
  {
    hide ParseHeader, ParseVars, EncVars, EncHeader, VarOk;
    HeaderSize(ASN_SEQUENCE, |EncVars(version, vars)|);
    ReadHeader(data, pos, left, ASN_SEQUENCE, EncVars(version, vars), false);
    VarsRoundTrip(data, pos + 4, version, vars);
  }

  lemma NoInts(data: seq<byte>, pos: nat, left: int)
    ensures ParseInts(data, pos, left, 0) == Some(Parsed([], 0, pos, left))
  {}

  lemma IntStep(data: seq<byte>, pos: nat, left: int, v: int32, n: nat, rest: Parsed<seq<int32>>)
    requires HasAt(data, pos, EncInt(ASN_INTEGER, v)) && |EncInt(ASN_INTEGER, v)| <= left < 0x8000_0000
    requires ParseInts(data, pos + |EncInt(ASN_INTEGER, v)|, left - |EncInt(ASN_INTEGER, v)|, n) == Some(rest)
    ensures ParseInts(data, pos, left, n + 1) == Some(rest.(value := [v] + rest.value))
  {
    hide ParseNumber, EncInt, HasAt;
    NumberOk(data, pos, left, ASN_INTEGER, v, true);
  }

  lemma IntsRoundTrip(data: seq<byte>, pos: nat, left: int, pdu: Pdu)
    requires HasAt(data, pos, EncPduFields(pdu)) && |EncPduFields(pdu)| <= left < 0x8000_0000
    ensures ParseInts(data, pos, left, 3)
         == Some(Parsed([pdu.reqid, Second(pdu), Third(pdu)], 0, pos + |EncPduFields(pdu)|, left - |EncPduFields(pdu)|))
  {
    hide EncInt, HasAt, Second, Third, ParseInts;
    var a, c, d := EncInt(ASN_INTEGER, pdu.reqid), EncInt(ASN_INTEGER, Second(pdu)), EncInt(ASN_INTEGER, Third(pdu));
    HasParts(data, pos, a, c + d);
    HasParts(data, pos + |a|, c, d);
    var q, r := pos + |a| + |c| + |d|, left - |a| - |c| - |d|;
    NoInts(data, q, r);
    IntStep(data, pos + |a| + |c|, left - |a| - |c|, Third(pdu), 0, Parsed([], 0, q, r));
    IntStep(data, pos + |a|, left - |a|, Second(pdu), 1, Parsed([Third(pdu)] + [], 0, q, r));
    IntStep(data, pos, left, pdu.reqid, 2, Parsed([Second(pdu)] + ([Third(pdu)] + []), 0, q, r));
    assert [pdu.reqid] + ([Second(pdu)] + ([Third(pdu)] + [])) == [pdu.reqid, Second(pdu), Third(pdu)];
  }

  /** What the decoder makes of a PDU when it decodes into another one. */
  function Received(pdu: Pdu, into: Pdu): Pdu {
    var p := into.(command := pdu.command, reqid := pdu.reqid);
    if pdu.command == SNMP_PDU_GETBULK
    then p.(nonRepeaters := pdu.nonRepeaters, maxRepetitions := pdu.maxRepetitions)
    else p.(errstat := pdu.errstat, errindex := pdu.errindex)
  }

  /** The fields are read back, and what is left in the PDU is its variable list. */
  lemma PduRoundTrip(data: seq<byte>, pos: nat, left: int, version: int, pdu: Pdu, into: Pdu)
    requires pdu.command % 32 != 31 && |EncPdu(version, pdu)| < 0x1_0000
    requires HasAt(data, pos, EncPdu(version, pdu)) && |EncPdu(version, pdu)| <= left < 0x8000_0000
    ensures var p := pos + 4 + |EncPduFields(pdu)|;
            && ParsePdu(data, pos, left, into)
            == Some(Parsed(Received(pdu, into), pdu.command, p, |EncVarList(version, pdu.variables)|))
            && HasAt(data, p, EncVarList(version, pdu.variables))
            && p + |EncVarList(version, pdu.variables)| == pos + |EncPdu(version, pdu)|
  {
    hide ParseHeader, ParseInts, EncHeader, EncPduFields, EncVarList;
    var f, l := EncPduFields(pdu), EncVarList(version, pdu.variables);
    HeaderSize(pdu.command, |f + l|);
    ReadHeader(data, pos, left, pdu.command, f + l, false);
    HasParts(data, pos + 4, f, l);
    IntsRoundTrip(data, pos + 4, |f + l|, pdu);
  }

  /** Messages within the limits of the codec, for a receiver with room for cap community octets. */
  predicate MessageOk(m: Message, cap: int) {
    && (forall v <- m.pdu.variables :: VarOk(v))
    && m.pdu.command % 32 != 31
    && |EncMessage(m)| < 0x1_0004 // the contents behind the header have a length of two octets
    && |m.community| <= cap < 0x8000_0000
  }

  /** What the receiver sees: the message, with SNMPv1 exceptions folded into noSuchObject. */
  function Seen(m: Message, into: Pdu): Message {
    m.(pdu := Store(Received(m.pdu, into), NormalVars(m.version, m.pdu.variables)))
  }

  /** Decoding an encoded message, whatever follows it in the packet, gives the message back. */
  lemma MessageRoundTrip(m: Message, tail: seq<byte>, left: int, cap: int, into: Pdu)
    requires MessageOk(m, cap) && |EncMessage(m)| <= left < 0x8000_0000
    ensures ParseMessage(EncMessage(m) + tail, left, cap, into) == Some((Seen(m, into), |EncMessage(m)|))
  {
    hide ParseHeader, ParseNumber, ParseString, ParsePdu, ParseVarList, EncHeader, EncInt, EncString, EncPdu, EncVarList, EncPduFields, VarOk, Normal, NormalVars, Received;
    var data := EncMessage(m) + tail;
    var v, c, p := EncInt(ASN_INTEGER, m.version), EncString(ASN_OCTET_STR, m.community), EncPdu(m.version, m.pdu);
    assert data[0..|EncMessage(m)|] == EncMessage(m);
    HeaderSize(ASN_SEQUENCE, |v + (c + p)|);
    ReadHeader(data, 0, left, ASN_SEQUENCE, v + (c + p), false);
    HasParts(data, 4, v, c + p);
    HasParts(data, 4 + |v|, c, p);
    NumberOk(data, 4, |v + (c + p)|, ASN_INTEGER, m.version, true);
    StringShorter(ASN_OCTET_STR, m.community);
    StringRoundTrip(data, 4 + |v|, |c + p|, cap, ASN_OCTET_STR, m.community);
    PduRoundTrip(data, 4 + |v + c|, |p|, m.version, m.pdu, into);
    var l := EncVarList(m.version, m.pdu.variables);
    VarListRoundTrip(data, 4 + |v + c| + 4 + |EncPduFields(m.pdu)|, |l|, m.version, m.pdu.variables);
  }

  /** Every message with a community that fills the receiver's buffer makes the decoder write its terminator behind it. */
  lemma FullCommunity(m: Message, tail: seq<byte>, left: int, cap: int)
    requires MessageOk(m, cap) && |EncMessage(m)| <= left < 0x8000_0000
    ensures CommunityOf(EncMessage(m) + tail, left, cap) == Some(m.community)
  {
    hide ParseMessage, CommunityOf, EncMessage, MessageOk;
    var into := m.pdu;
    MessageRoundTrip(m, tail, left, cap, into);
    MessageBounds(m, cap);
    CommunityFits(EncMessage(m) + tail, left, cap, into);
  }

  lemma MessageBounds(m: Message, cap: int)
    requires MessageOk(m, cap)
    ensures 0 <= cap < 0x8000_0000
  {}

  lemma StringShorter(typ: byte, s: seq<byte>)
    ensures |s| < |EncString(typ, s)|
  {}

  /** A PDU as snmp_pdu_create makes it; its command does not matter, for the decoder sets it. */
  const Created := Pdu(0, 0, -1, -1, 0, 0, [])

  /** The two fields that are not sent with a PDU of this kind are as snmp_pdu_create leaves them. */
  predicate RestUnset(pdu: Pdu) {
    if pdu.command == SNMP_PDU_GETBULK then pdu.errstat == -1 && pdu.errindex == -1
    else pdu.nonRepeaters == 0 && pdu.maxRepetitions == 0
  }

  /** Version 1 knows one exception only. */
  predicate SameValues(version: int, vars: seq<Var>) {
    forall v <- vars :: Normal(version, v.value) == v.value
  }

  /** A receiver with a new PDU gets the very message exactly if what is not sent was unset and no exception was replaced. */
  lemma ComesBackWhole(m: Message, cap: int)
    requires MessageOk(m, cap)
    ensures ParseMessage(EncMessage(m), |EncMessage(m)|, cap, Created) == Some((m, |EncMessage(m)|))
        <==> RestUnset(m.pdu) && SameValues(m.version, m.pdu.variables)
  {
    hide ParseMessage, EncMessage, Normal;
    NormalSame(m.version, m.pdu.variables);
    assert EncMessage(m) + [] == EncMessage(m);
    MessageRoundTrip(m, [], |EncMessage(m)|, cap, Created);
  }

  lemma {:induction false} NormalSame(version: int, vars: seq<Var>)
    ensures NormalVars(version, vars) == vars <==> SameValues(version, vars)
  {
    hide Normal;
    if vars != [] {
      NormalSame(version, vars[1..]);
      assert vars == [vars[0]] + vars[1..];
    }
  }

  /** Every version but the first knows every exception. */
  lemma VersionTwoExact(m: Message, cap: int)
    requires MessageOk(m, cap) && m.version != SNMP_VERSION_1
    ensures ParseMessage(EncMessage(m), |EncMessage(m)|, cap, Created) == Some((m, |EncMessage(m)|)) <==> RestUnset(m.pdu)
  {
    hide ParseMessage, EncMessage;
    ComesBackWhole(m, cap);
  }
}
