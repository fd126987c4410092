/**
 SNMP messages of snmplib/snmp_vars.c, snmp_pdu.c and snmp_msg.c: the octets a message stands for
 (section 4 of RFC 1157, section 3 of RFC 1905), the decoder, and the proof that it undoes the encoder.
 */
module SnmpMessage {
  import opened Options
  import opened Buffers
  import opened Asn1
  import opened Asn1Oid

  const SMI_NOSUCHOBJECT: byte := 0x80
  const SNMP_VERSION_1 := 0
  const SNMP_PDU_GETBULK: byte := 0xA5
  const MAX_NAME_LEN := 64

  /** The value of a variable, by its type octet. */
  datatype Value =
    | IntV(i: int32)
    | UIntV(typ: byte, u: uint32)
    | StrV(typ: byte, s: seq<byte>)
    | OidV(oid: Oid)
    | NullV(typ: byte)
    | OtherV(typ: byte)

  datatype Var = Var(name: Oid, value: Value)

  datatype Pdu = Pdu(
    command: byte, reqid: int32, errstat: int32, errindex: int32,
    nonRepeaters: int32, maxRepetitions: int32, variables: seq<Var>)

  datatype Message = Message(version: int32, community: seq<byte>, pdu: Pdu)

  predicate IsUnsigned(typ: byte) { typ in [0x41, 0x42, 0x43] } // Counter32, Gauge32, TimeTicks
  predicate IsString(typ: byte) { typ in [0x04, 0x40, 0x44] } // OCTET STRING, IpAddress, Opaque
  predicate IsException(typ: byte) { typ in [0x80, 0x81, 0x82] } // noSuchObject, noSuchInstance, endOfMibView

  /** The types the encoder has a case for; Counter64 is not among them. */
  predicate Supported(v: Value) {
    match v
    case IntV(_) => true
    case UIntV(t, _) => IsUnsigned(t)
    case StrV(t, _) => IsString(t)
    case OidV(_) => true
    case NullV(t) => t == ASN_NULL || IsException(t)
    case OtherV(_) => false
  }

  // ---------------------------------------------------------------- what the encoder must produce

  /** SNMPv1 has one exception only. */
  function Normal(version: int, v: Value): Value {
    if v.NullV? && IsException(v.typ) && version == SNMP_VERSION_1 then NullV(SMI_NOSUCHOBJECT) else v
  }

  function EncValue(version: int, v: Value): seq<byte> {
    match Normal(version, v)
    case IntV(i) => EncInt(ASN_INTEGER, i)
    case UIntV(t, u) => EncInt(t, u)
    case StrV(t, s) => EncString(t, s)
    case OidV(oid) => EncObjid(ASN_OBJECT_ID, oid)
    case NullV(t) => EncHeader(t, 0, true)
    case OtherV(_) => []
  }

  /** A constructed object; its header always takes four octets. */
  function EncConstructed(typ: byte, content: seq<byte>): seq<byte> {
    EncHeader(typ, |content|, false) + content
  }

  function VarContent(version: int, v: Var): seq<byte> {
    EncObjid(ASN_OBJECT_ID, v.name) + EncValue(version, v.value)
  }

  function EncVar(version: int, v: Var): seq<byte> {
    EncConstructed(ASN_SEQUENCE, VarContent(version, v))
  }

  function EncVars(version: int, vars: seq<Var>): seq<byte> {
    if vars == [] then [] else EncVar(version, vars[0]) + EncVars(version, vars[1..])
  }

  /** The two numbers that follow the request id. */
  function Second(pdu: Pdu): int32 { if pdu.command == SNMP_PDU_GETBULK then pdu.nonRepeaters else pdu.errstat }
  function Third(pdu: Pdu): int32 { if pdu.command == SNMP_PDU_GETBULK then pdu.maxRepetitions else pdu.errindex }

  function EncPduFields(pdu: Pdu): seq<byte> {
    EncInt(ASN_INTEGER, pdu.reqid) + (EncInt(ASN_INTEGER, Second(pdu)) + EncInt(ASN_INTEGER, Third(pdu)))
  }

  function EncVarList(version: int, vars: seq<Var>): seq<byte> {
    EncConstructed(ASN_SEQUENCE, EncVars(version, vars))
  }

  function EncPdu(version: int, pdu: Pdu): seq<byte> {
    EncConstructed(pdu.command, EncPduFields(pdu) + EncVarList(version, pdu.variables))
  }

  function EncMessage(m: Message): seq<byte> {
    EncConstructed(ASN_SEQUENCE,
      EncInt(ASN_INTEGER, m.version) + (EncString(ASN_OCTET_STR, m.community) + EncPdu(m.version, m.pdu)))
  }

  // ---------------------------------------------------------------- the decoder

  /** The value at pos; a null-like value ends after its header, whatever its length says. */
  function ParseValue(data: seq<byte>, pos: nat, left: int): Option<(Value, nat)> {
    match ParseHeader(data, pos, left)
    case None => None
    case Some(h) =>
      if h.typ == ASN_INTEGER then
        match ParseNumber(data, pos, left, true) { case None => None case Some(x) => Some((IntV(x.value), x.pos)) }
      else if IsUnsigned(h.typ) then
        match ParseNumber(data, pos, left, false) { case None => None case Some(x) => Some((UIntV(x.typ, x.value), x.pos)) }
      else if IsString(h.typ) then
        match ParseString(data, pos, left, left) { case None => None case Some(x) => Some((StrV(x.typ, x.value), x.pos)) }
      else if h.typ == ASN_OBJECT_ID then
        match ParseObjid(data, pos, left, MAX_NAME_LEN) { case None => None case Some(x) => Some((OidV(x.value), x.pos)) }
      else if h.typ == ASN_NULL || IsException(h.typ) then Some((NullV(h.typ), h.pos))
      else None
  }

  /** Name and value of one binding whose header has been read; len is what the header said. */
  function ParseBinding(data: seq<byte>, pos: nat, len: int): Option<(Var, nat)> {
    match ParseObjid(data, pos, len, MAX_NAME_LEN)
    case None => None
    case Some(name) =>
      if name.typ != ASN_OBJECT_ID then None
      else
        match ParseValue(data, name.pos, name.left)
        case None => None
        case Some((value, p)) => Some((Var(name.value, value), p))
  }

  lemma HeaderAdvances(data: seq<byte>, pos: nat, left: int)
    ensures var h := ParseHeader(data, pos, left); h.Some? ==> pos < h.value.pos && h.value.left >= 0
  {}

  /** The bindings; all counts down by the lengths in the headers, the position follows the values. */
  function ParseVars(data: seq<byte>, pos: nat, all: int): Option<(seq<Var>, nat)>
    decreases all
  {
    if all <= 0 then Some(([], pos))
    else
      HeaderAdvances(data, pos, all);
      match ParseHeader(data, pos, all)
      case None => None
      case Some(h) =>
        if h.typ != ASN_SEQUENCE then None
        else
          match ParseBinding(data, h.pos, h.left)
          case None => None
          case Some((v, p)) =>
            match ParseVars(data, p, all - (h.left + (h.pos - pos)))
            case None => None
            case Some((rest, q)) => Some(([v] + rest, q))
  }

  /** snmp_var_DecodeVarBind. */
  function ParseVarList(data: seq<byte>, pos: nat, left: int): Option<(seq<Var>, nat)> {
    match ParseHeader(data, pos, left)
    case None => None
    case Some(h) => if h.typ != ASN_SEQUENCE then None else ParseVars(data, h.pos, h.left)
  }

  /** n numbers, whose type octets nobody looks at. */
  function ParseInts(data: seq<byte>, pos: nat, left: int, n: nat): (r: Option<Parsed<seq<int32>>>)
    ensures r.Some? ==> |r.value.value| == n
    decreases n
  {
    if n == 0 then Some(Parsed([], 0, pos, left))
    else
      match ParseNumber(data, pos, left, true)
      case None => None
      case Some(x) =>
        match ParseInts(data, x.pos, x.left, n - 1)
        case None => None
        case Some(rest) => Some(rest.(value := [x.value] + rest.value))
  }

  /** snmp_pdu_decode into an existing PDU, whose other fields stay. */
  function ParsePdu(data: seq<byte>, pos: nat, left: int, into: Pdu): Option<Parsed<Pdu>> {
    match ParseHeader(data, pos, left)
    case None => None
    case Some(h) =>
      match ParseInts(data, h.pos, h.left, 3)
      case None => None
      case Some(x) =>
        var pdu := into.(command := h.typ, reqid := x.value[0]);
        Some(Parsed(
          if h.typ == SNMP_PDU_GETBULK then pdu.(nonRepeaters := x.value[1], maxRepetitions := x.value[2])
          else pdu.(errstat := x.value[1], errindex := x.value[2]),
          h.typ, x.pos, x.left))
  }

  /** Decoded variables overwrite the list; no variable leaves it alone. */
  function Store(pdu: Pdu, vars: seq<Var>): Pdu {
    if vars == [] then pdu else pdu.(variables := vars)
  }

  /** snmp_msg_Decode, with room for cap octets of community. */
  function ParseMessage(data: seq<byte>, left: int, cap: int, into: Pdu): Option<(Message, nat)> {
    match ParseHeader(data, 0, left)
    case None => None
    case Some(h) =>
      if h.typ != ASN_SEQUENCE then None else
        match ParseNumber(data, h.pos, h.left, true)
        case None => None
        case Some(version) =>
          match ParseString(data, version.pos, version.left, cap)
          case None => None
          case Some(community) =>
            match ParsePdu(data, community.pos, community.left, into)
            case None => None
            case Some(pdu) =>
              match ParseVarList(data, pdu.pos, pdu.left)
              case None => None
              case Some((vars, p)) => Some((Message(version.value, community.value, Store(pdu.value, vars)), p))
  }

  /** The community that snmp_msg_Decode copies out, whatever becomes of the rest of the message. */
  function CommunityOf(data: seq<byte>, left: int, cap: int): Option<seq<byte>> {
    match ParseHeader(data, 0, left)
    case None => None
    case Some(h) =>
      if h.typ != ASN_SEQUENCE then None else
        match ParseNumber(data, h.pos, h.left, true)
        case None => None
        case Some(version) =>
          match ParseString(data, version.pos, version.left, cap)
          case None => None
          case Some(community) => Some(community.value)
  }

  /** It is that of the message decoded, and never longer than the receiver says. */
  lemma CommunityFits(data: seq<byte>, left: int, cap: int, into: Pdu)
    requires 0 <= cap < 0x8000_0000
    ensures var c, m := CommunityOf(data, left, cap), ParseMessage(data, left, cap, into);
            && (c.Some? ==> |c.value| <= cap)
            && (m.Some? ==> c == Some(m.value.0.community))
  {
    hide ParseHeader, ParseNumber, ParseString, ParsePdu, ParseVarList;
    var h := ParseHeader(data, 0, left);
    if h.Some? {
      var version := ParseNumber(data, h.value.pos, h.value.left, true);
      if version.Some? { StringFits(data, version.value.pos, version.value.left, cap); }
    }
  }
}
