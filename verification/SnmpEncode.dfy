/**
 snmp_msg_Encode and what it calls: every constructed header is first written with a false length
 and patched in place once the contents are known.
 */
module SnmpEncode {
  import opened Buffers
  import opened Asn1
  import opened Asn1Oid
  import opened Asn1Build
  import opened SnmpMessage
  import SnmpWire

  /** Built, for an encoder that also fails on values it does not support. */
  ghost predicate BuiltIf(sup: bool, a: seq<byte>, b: seq<byte>, pos: nat, left: nat, enc: seq<byte>, ok: bool, p: nat, l: nat) {
    && Kept(a, b, pos, left)
    && (ok <==> sup && |enc| <= left)
    && (ok ==> Built(a, b, pos, left, enc, true, p, l))
  }

  /** The object identifiers in a variable fit the builder's local buffer. */
  predicate ValueHeld(v: Value) {
    v.OidV? ==> Held(v.oid)
  }

  predicate Buildable(v: Var) {
    Held(v.name) && ValueHeld(v.value)
  }

  predicate AllBuildable(vars: seq<Var>) {
    forall v <- vars :: Buildable(v)
  }

  predicate AllSupported(vars: seq<Var>) {
    forall v <- vars :: Supported(v.value)
  }

  method EncodeValue(buf: array<byte>, pos: nat, left: nat, version: int, v: Value)
    returns (ok: bool, over: bool, p: nat, l: nat)
    requires pos + left <= buf.Length
    modifies buf
    ensures BuiltIf(Supported(v) && ValueHeld(v), old(buf[..]), buf[..], pos, left, EncValue(version, v), ok, p, l)
    ensures over <==> !ValueHeld(v)
  {
    hide EncInt, EncString, EncObjid, EncHeader, Held;
    over := false;
    if v.IntV? {
      ok, p, l := BuildInt(buf, pos, left, ASN_INTEGER, v.i);
    } else if v.UIntV? && IsUnsigned(v.typ) {
      ok, p, l := BuildUnsigned(buf, pos, left, v.typ, v.u);
    } else if v.StrV? && IsString(v.typ) {
      ok, p, l := BuildString(buf, pos, left, v.typ, v.s);
    } else if v.OidV? {
      ok, over, p, l := BuildObjid(buf, pos, left, ASN_OBJECT_ID, v.oid);
    } else if v.NullV? && IsException(v.typ) {
      if version == SNMP_VERSION_1 {
        ok, p, l := BuildHeader(buf, pos, left, SMI_NOSUCHOBJECT, 0, true);
      } else {
        ok, p, l := BuildHeader(buf, pos, left, v.typ, 0, true);
      }
    } else if v.NullV? && v.typ == ASN_NULL {
      ok, p, l := BuildHeader(buf, pos, left, v.typ, 0, true);
    } else {
      ok, p, l := false, pos, left;
    }
  }

  /** Overwriting a header by one of the same size leaves the octets before and after it alone. */
  lemma Patched(b: seq<byte>, c: seq<byte>, pos: nat, x: seq<byte>, was: seq<byte>, now: seq<byte>, y: seq<byte>)
    requires HasAt(b, pos, x + was + y) && |was| == |now|
    requires Kept(b, c, pos + |x|, |now|) && HasAt(c, pos + |x|, now)
    ensures HasAt(c, pos, x + now + y)
  {
    var e, f := x + was + y, x + now + y;
    forall i | 0 <= i < |f| ensures c[pos + i] == f[i] {
      if |x| <= i < |x| + |now| {
        assert c[pos + i] == c[pos + |x|..pos + |x| + |now|][i - |x|];
      } else {
        assert b[pos + i] == b[pos..pos + |e|][i];
      }
    }
    assert c[pos..pos + |f|] == f;
  }

  /** Patching the header of the object just built. */
  lemma PatchFirst(a: seq<byte>, b: seq<byte>, c: seq<byte>, pos: nat, left: nat,
                   was: seq<byte>, now: seq<byte>, body: seq<byte>, p: nat, l: nat)
    requires Built(a, b, pos, left, was + body, true, p, l) && |was| == |now|
    requires Kept(b, c, pos, |now|) && HasAt(c, pos, now)
    ensures Built(a, c, pos, left, now + body, true, p, l)
  {
    assert [] + was + body == was + body && [] + now + body == now + body;
    Patched(b, c, pos, [], was, now, body);
    KeptBoth(a, b, c, pos, left, pos, |now|);
    KeptBoth(a, b, c, pos, |was + body|, pos, |now|);
  }

  /** The round of the loop for one variable; fake is the false length, and counts the headers rebuilt. */
  method EncodeVar(buf: array<byte>, pos: nat, left: nat, version: int, v: Var, fake: nat)
    returns (ok: bool, over: bool, p: nat, l: nat, rest: nat)
    requires pos + left <= buf.Length && left <= fake
    modifies buf
    ensures BuiltIf(Supported(v.value) && Buildable(v), old(buf[..]), buf[..], pos, left, EncVar(version, v), ok, p, l)
    ensures over ==> !Buildable(v)
    ensures Supported(v.value) && |EncVar(version, v)| <= left ==> (over <==> !Buildable(v))
    ensures ok ==> rest == fake - 4
  {
    hide EncValue, EncObjid, EncHeader, Supported, Held, ValueHeld, Kept, HasAt;
    ghost var a := buf[..];
    ghost var was, now := EncHeader(ASN_SEQUENCE, fake, false), EncHeader(ASN_SEQUENCE, |VarContent(version, v)|, false);
    ghost var n, e := EncObjid(ASN_OBJECT_ID, v.name), EncValue(version, v.value);
    HeaderSize(ASN_SEQUENCE, fake);
    HeaderSize(ASN_SEQUENCE, |VarContent(version, v)|);
    rest, over := fake, false;
    var headerEnd, more;
    ok, headerEnd, more := BuildHeader(buf, pos, left, ASN_SEQUENCE, fake, false);
    p, l := headerEnd, more;
    if !ok { return; }
    ghost var b := buf[..];
    ok, over, p, l := BuildObjid(buf, headerEnd, more, ASN_OBJECT_ID, v.name);
    if over { return; }
    BuiltBoth(a, b, buf[..], pos, left, was, n, headerEnd, more, ok, p, l);
    if !ok { return; }
    ghost var c, q, m := buf[..], p, l;
    ok, over, p, l := EncodeValue(buf, p, l, version, v.value);
    KeptBoth(a, c, buf[..], pos, left, q, m);
    if !ok { return; }
    BuiltBoth(a, c, buf[..], pos, left, was + n, e, q, m, ok, p, l);
    ghost var d := buf[..];
    ok, headerEnd, rest := BuildHeader(buf, pos, fake, ASN_SEQUENCE, p - headerEnd, false);
    assert was + n + e == was + VarContent(version, v);
    PatchFirst(a, d, buf[..], pos, left, was, now, VarContent(version, v), p, l);
  }

  lemma VarStep(version: int, vars: seq<Var>, i: nat)
    requires i < |vars|
    ensures EncVars(version, vars[..i + 1]) == EncVars(version, vars[..i]) + EncVar(version, vars[i])
  {
    hide EncVar, EncVars;
    VarsAppend(version, vars[..i], vars[i]);
    assert vars[..i + 1] == vars[..i] + [vars[i]];
  }

  lemma {:induction false} VarsAppend(version: int, vars: seq<Var>, v: Var)
    ensures EncVars(version, vars + [v]) == EncVars(version, vars) + EncVar(version, v)
    decreases |vars|
  {
    hide EncVar;
    if vars != [] {
      VarsAppend(version, vars[1..], v);
      assert (vars + [v])[1..] == vars[1..] + [v];
    }
  }

  lemma VarsGrow(version: int, vars: seq<Var>, i: nat)
    requires i <= |vars|
    ensures |EncVars(version, vars[..i])| <= |EncVars(version, vars)|
    decreases |vars| - i
  {
    hide EncVar, EncVars;
    if i < |vars| {
      VarStep(version, vars, i);
      VarsGrow(version, vars, i + 1);
    } else {
      assert vars[..i] == vars;
    }
  }

  lemma NoVars(version: int, vars: seq<Var>)
    ensures EncVars(version, vars[..0]) == []
  {}

  /** snmp_var_EncodeVarBind. */
  method EncodeVars(buf: array<byte>, pos: nat, left: nat, version: int, vars: seq<Var>)
    returns (ok: bool, over: bool, p: nat, l: nat)
    requires pos + left <= buf.Length
    modifies buf
    ensures BuiltIf(AllSupported(vars) && AllBuildable(vars), old(buf[..]), buf[..], pos, left, EncVars(version, vars), ok, p, l)
    ensures over ==> !AllBuildable(vars)
    ensures AllSupported(vars) && |EncVars(version, vars)| <= left ==> (over <==> !AllBuildable(vars))
  {
    hide EncVar, EncVars, Supported, Buildable, Kept, HasAt;
    var i, fake := 0, left;
    ok, over, p, l := true, false, pos, left;
    ghost var a := buf[..];
    NoVars(version, vars);
    BuiltNone(a, pos, left);
    while i < |vars|
      invariant i <= |vars| && l <= fake && !over
      invariant Built(a, buf[..], pos, left, EncVars(version, vars[..i]), true, p, l)
      invariant AllSupported(vars[..i]) && AllBuildable(vars[..i])
    {
      ghost var b, q, m := buf[..], p, l;
      ok, over, p, l, fake := EncodeVar(buf, p, l, version, vars[i], fake);
      VarStep(version, vars, i);
      VarsGrow(version, vars, i + 1);
      KeptBoth(a, b, buf[..], pos, left, q, m);
      if !ok { return; }
      VarTakes(version, vars[i]);
      BuiltBoth(a, b, buf[..], pos, left, EncVars(version, vars[..i]), EncVar(version, vars[i]), q, m, ok, p, l);
      i := i + 1;
    }
    assert vars[..i] == vars;
  }

  lemma VarTakes(version: int, v: Var)
    ensures |EncVar(version, v)| >= 4
  {
    HeaderSize(ASN_SEQUENCE, |VarContent(version, v)|);
  }

  lemma BuiltNone(a: seq<byte>, pos: nat, left: nat)
    requires pos <= |a|
    ensures Built(a, a, pos, left, [], true, pos, left)
  {}

  /** snmp_pdu_encode: request id and the two numbers of this kind of PDU. */
  method EncodePduFields(buf: array<byte>, pos: nat, left: nat, pdu: Pdu) returns (ok: bool, p: nat, l: nat)
    requires pos + left <= buf.Length
    modifies buf
    ensures Built(old(buf[..]), buf[..], pos, left, EncPduFields(pdu), ok, p, l)
  {
    hide EncInt, Kept, HasAt;
    ghost var a := buf[..];
    ghost var x, y, z := EncInt(ASN_INTEGER, pdu.reqid), EncInt(ASN_INTEGER, Second(pdu)), EncInt(ASN_INTEGER, Third(pdu));
    Regroup(x, y, z);
    var bulk := pdu.command == SNMP_PDU_GETBULK;
    ok, p, l := BuildInt(buf, pos, left, ASN_INTEGER, pdu.reqid);
    if !ok { return; }
    ghost var b, q, m := buf[..], p, l;
    ok, p, l := BuildInt(buf, p, l, ASN_INTEGER, if bulk then pdu.nonRepeaters else pdu.errstat);
    BuiltBoth(a, b, buf[..], pos, left, x, y, q, m, ok, p, l);
    if !ok { return; }
    ghost var c, r, n := buf[..], p, l;
    ok, p, l := BuildInt(buf, p, l, ASN_INTEGER, if bulk then pdu.maxRepetitions else pdu.errindex);
    BuiltBoth(a, c, buf[..], pos, left, x + y, z, r, n, ok, p, l);
  }

  /** The message up to the community, with a false length of n in the header. */
  function Head(m: Message, n: nat): seq<byte> {
    EncHeader(ASN_SEQUENCE, n, false) + EncInt(ASN_INTEGER, m.version) + EncString(ASN_OCTET_STR, m.community)
  }

  method EncodeHead(buf: array<byte>, left: nat, m: Message) returns (ok: bool, p: nat, l: nat)
    requires left <= buf.Length
    modifies buf
    ensures Built(old(buf[..]), buf[..], 0, left, Head(m, left), ok, p, l)
  {
    hide EncInt, EncString, EncHeader, Kept, HasAt;
    ghost var a := buf[..];
    ghost var h, v, c := EncHeader(ASN_SEQUENCE, left, false), EncInt(ASN_INTEGER, m.version), EncString(ASN_OCTET_STR, m.community);
    ok, p, l := BuildHeader(buf, 0, left, ASN_SEQUENCE, left, false);
    if !ok { return; }
    ghost var b, q, k := buf[..], p, l;
    ok, p, l := BuildInt(buf, p, l, ASN_INTEGER, m.version);
    BuiltBoth(a, b, buf[..], 0, left, h, v, q, k, ok, p, l);
    if !ok { return; }
    ghost var d, r, n := buf[..], p, l;
    ok, p, l := BuildString(buf, p, l, ASN_OCTET_STR, m.community);
    BuiltBoth(a, d, buf[..], 0, left, h + v, c, r, n, ok, p, l);
  }

  /** The PDU header and fields and the header of the variable list, with false types and lengths. */
  function Middle(m: Message, n: nat): seq<byte> {
    EncHeader(ASN_SEQUENCE, n, false) + EncPduFields(m.pdu) + EncHeader(ASN_SEQUENCE, 1024, false)
  }

  method EncodeMiddle(buf: array<byte>, pos: nat, left: nat, m: Message) returns (ok: bool, p: nat, l: nat)
    requires pos + left <= buf.Length
    modifies buf
    ensures Built(old(buf[..]), buf[..], pos, left, Middle(m, left), ok, p, l)
  {
    hide EncPduFields, EncHeader, Kept, HasAt;
    ghost var a := buf[..];
    ghost var h, f, g := EncHeader(ASN_SEQUENCE, left, false), EncPduFields(m.pdu), EncHeader(ASN_SEQUENCE, 1024, false);
    ok, p, l := BuildHeader(buf, pos, left, ASN_SEQUENCE, left, false);
    if !ok { return; }
    ghost var b, q, k := buf[..], p, l;
    ok, p, l := EncodePduFields(buf, p, l, m.pdu);
    BuiltBoth(a, b, buf[..], pos, left, h, f, q, k, ok, p, l);
    if !ok { return; }
    ghost var d, r, n := buf[..], p, l;
    ok, p, l := BuildHeader(buf, p, l, ASN_SEQUENCE, 1024, false);
    BuiltBoth(a, d, buf[..], pos, left, h + f, g, r, n, ok, p, l);
  }

  /** The pieces of a message around its three patched headers. */
  lemma Pieces(m: Message, n: nat, k: nat)
    ensures var v, c, f, vs := EncInt(ASN_INTEGER, m.version), EncString(ASN_OCTET_STR, m.community), EncPduFields(m.pdu), EncVars(m.version, m.pdu.variables);
            var pduLen, varLen := |f| + 4 + |vs|, |vs|;
            var msgLen := |v| + |c| + 4 + pduLen;
            && |Head(m, n)| == 4 + |v| + |c| && |Middle(m, k)| == 8 + |f|
            && |Head(m, n) + Middle(m, k) + vs| == |EncMessage(m)| == msgLen + 4
            && Head(m, n) + Middle(m, k) + vs
            == Head(m, n) + EncHeader(ASN_SEQUENCE, k, false) + (f + EncHeader(ASN_SEQUENCE, 1024, false) + vs)
            && Head(m, n) + EncHeader(m.pdu.command, pduLen, false) + (f + EncHeader(ASN_SEQUENCE, 1024, false) + vs)
            == [] + EncHeader(ASN_SEQUENCE, n, false) + (v + c + EncHeader(m.pdu.command, pduLen, false) + f + EncHeader(ASN_SEQUENCE, 1024, false) + vs)
            && [] + EncHeader(ASN_SEQUENCE, msgLen, false) + (v + c + EncHeader(m.pdu.command, pduLen, false) + f + EncHeader(ASN_SEQUENCE, 1024, false) + vs)
            == (EncHeader(ASN_SEQUENCE, msgLen, false) + v + c + EncHeader(m.pdu.command, pduLen, false) + f) + EncHeader(ASN_SEQUENCE, 1024, false) + vs
            && (EncHeader(ASN_SEQUENCE, msgLen, false) + v + c + EncHeader(m.pdu.command, pduLen, false) + f) + EncHeader(ASN_SEQUENCE, varLen, false) + vs
            == EncMessage(m)
  {
    hide EncInt, EncString, EncPduFields, EncVars, EncHeader;
    var v, c, f, vs := EncInt(ASN_INTEGER, m.version), EncString(ASN_OCTET_STR, m.community), EncPduFields(m.pdu), EncVars(m.version, m.pdu.variables);
    var pduLen := |f| + 4 + |vs|;
    var msgLen := |v| + |c| + 4 + pduLen;
    forall t: byte, x: nat { HeaderSize(t, x); }
    assert EncVarList(m.version, m.pdu.variables) == EncHeader(ASN_SEQUENCE, |vs|, false) + vs;
    assert |EncPduFields(m.pdu) + EncVarList(m.version, m.pdu.variables)| == pduLen;
    assert EncPdu(m.version, m.pdu) == EncHeader(m.pdu.command, pduLen, false) + (f + (EncHeader(ASN_SEQUENCE, |vs|, false) + vs));
    assert |v + (c + EncPdu(m.version, m.pdu))| == msgLen;
    assert EncMessage(m) == EncHeader(ASN_SEQUENCE, msgLen, false) + (v + (c + EncPdu(m.version, m.pdu)));
  }

  /** Rebuild one header in place, between x and y. */
  method PatchHeader(buf: array<byte>, fake: nat, at: nat, typ: byte, n: nat,
                     ghost x: seq<byte>, ghost oldTyp: byte, ghost oldLen: nat, ghost y: seq<byte>) returns (rest: nat)
    requires fake >= 4 && at == |x| && HasAt(buf[..], 0, x + EncHeader(oldTyp, oldLen, false) + y)
    modifies buf
    ensures rest == fake - 4
    ensures HasAt(buf[..], 0, x + EncHeader(typ, n, false) + y)
    ensures Kept(old(buf[..]), buf[..], 0, |x| + 4 + |y|)
  {
    hide EncHeader;
    HeaderSize(oldTyp, oldLen);
    HeaderSize(typ, n);
    var ok, p;
    ok, p, rest := BuildHeader(buf, at, fake, typ, n, false);
    Patched(old(buf[..]), buf[..], 0, x, EncHeader(oldTyp, oldLen, false), EncHeader(typ, n, false), y);
  }

  lemma PieceSizes(m: Message, n: nat)
    ensures |EncHeader(m.pdu.command, n, false)| == 4 && |EncHeader(ASN_SEQUENCE, n, false)| == 4
  {}

  /** The true lengths: PDU first, then the message, then the variable list. */
  method PatchHeaders(buf: array<byte>, m: Message, ghost n: nat, ghost k: nat, pduHeader: nat, varStart: nat, end: nat)
    requires end == |EncMessage(m)| <= buf.Length
    requires pduHeader == |Head(m, n)| && varStart == |Head(m, n) + Middle(m, k)|
    requires HasAt(buf[..], 0, Head(m, n) + Middle(m, k) + EncVars(m.version, m.pdu.variables))
    modifies buf
    ensures HasAt(buf[..], 0, EncMessage(m)) && Kept(old(buf[..]), buf[..], 0, end)
  {
    hide EncInt, EncString, EncPduFields, EncVars, EncHeader, Head, Middle, EncMessage, Kept, HasAt;
    Pieces(m, n, k);
    ghost var a := buf[..];
    ghost var v, c, f, vs := EncInt(ASN_INTEGER, m.version), EncString(ASN_OCTET_STR, m.community), EncPduFields(m.pdu), EncVars(m.version, m.pdu.variables);
    ghost var pduLen := |f| + 4 + |vs|;
    ghost var msgLen := |v| + |c| + 4 + pduLen;
    ghost var h, g := EncHeader(m.pdu.command, pduLen, false), EncHeader(ASN_SEQUENCE, 1024, false);
    ghost var top := EncHeader(ASN_SEQUENCE, msgLen, false);
    PieceSizes(m, pduLen);
    PieceSizes(m, msgLen);
    PieceSizes(m, 1024);
    var fake := PatchHeader(buf, 1024, pduHeader, m.pdu.command, end - (pduHeader + 4), Head(m, n), ASN_SEQUENCE, k, f + g + vs);
    ghost var b := buf[..];
    fake := PatchHeader(buf, fake, 0, ASN_SEQUENCE, end - 4, [], ASN_SEQUENCE, n, v + c + h + f + g + vs);
    KeptBoth(a, b, buf[..], 0, end, 0, end);
    ghost var d := buf[..];
    fake := PatchHeader(buf, fake, varStart - 4, ASN_SEQUENCE, end - varStart, top + v + c + h + f, ASN_SEQUENCE, 1024, vs);
    KeptBoth(a, d, buf[..], 0, end, 0, end);
  }

  /** snmp_msg_Encode into the whole buffer; len is what *BufLenP becomes, over is the overrun of BuildObjid. */
  method EncodeMessage(buf: array<byte>, left: nat, m: Message) returns (ok: bool, over: bool, len: nat)
    requires left <= buf.Length
    modifies buf
    ensures Kept(old(buf[..]), buf[..], 0, left)
    ensures ok <==> AllSupported(m.pdu.variables) && AllBuildable(m.pdu.variables) && |EncMessage(m)| <= left
    ensures ok ==> len == |EncMessage(m)| && buf[..len] == EncMessage(m) == SnmpWire.WireMessage(m)
    ensures over ==> !AllBuildable(m.pdu.variables)
    ensures AllSupported(m.pdu.variables) && |EncMessage(m)| <= left ==> (over <==> !AllBuildable(m.pdu.variables))
  {
    hide EncInt, EncString, EncPduFields, EncVars, EncHeader, Head, Middle, EncMessage, Kept, HasAt, Supported, Buildable, SnmpWire.WireMessage;
    ghost var a := buf[..];
    ghost var vs := EncVars(m.version, m.pdu.variables);
    var p, l;
    over, len := false, left;
    ok, p, l := EncodeHead(buf, left, m);
    ghost var n := left;
    Pieces(m, n, l);
    if !ok { return; }
    var pduHeader := p;
    ghost var b, k := buf[..], l;
    ok, p, l := EncodeMiddle(buf, p, l, m);
    BuiltBoth(a, b, buf[..], 0, left, Head(m, n), Middle(m, k), pduHeader, k, ok, p, l);
    if !ok { return; }
    var varStart := p;
    ghost var c, j := buf[..], l;
    ok, over, p, l := EncodeVars(buf, p, l, m.version, m.pdu.variables);
    KeptBoth(a, c, buf[..], 0, left, varStart, j);
    if !ok { return; }
    BuiltBoth(a, c, buf[..], 0, left, Head(m, n) + Middle(m, k), vs, varStart, j, ok, p, l);
    ghost var d := buf[..];
    PatchHeaders(buf, m, n, k, pduHeader, varStart, p);
    KeptBoth(a, d, buf[..], 0, left, 0, p);
    StartsWith(buf[..], EncMessage(m));
    SnmpWire.MessageOnWire(m);
    len := p;
  }

  lemma StartsWith(a: seq<byte>, e: seq<byte>)
    requires HasAt(a, 0, e)
    ensures |e| <= |a| && a[..|e|] == e
  {
    assert a[0..|e|] == a[..|e|];
  }
}
