/** snmp_fix_pdu of snmplib/snmp_pdu.c: retry a failed request without the variable that failed. */
module SnmpFix {
  import opened Buffers
  import opened Asn1
  import opened SnmpMessage

  const SNMP_PDU_RESPONSE: byte := 0xA2
  const SNMP_DEFAULT_REQID := 0
  const SNMP_DEFAULT_ERR := -1

  /** A response that reports an error in one of its variables, with others left to ask for. */
  predicate Fixable(pdu: Pdu) {
    && pdu.command == SNMP_PDU_RESPONSE && pdu.errstat != 0
    && 1 <= pdu.errindex <= |pdu.variables| && |pdu.variables| >= 2
  }

  /** All variables but the one at place k, counted from 1. */
  function Except(vars: seq<Var>, k: int): seq<Var>
    requires 1 <= k <= |vars|
  {
    vars[..k - 1] + vars[k..]
  }

  function Fixed(pdu: Pdu, command: byte): Pdu
    requires Fixable(pdu)
  {
    pdu.(command := command, reqid := SNMP_DEFAULT_REQID, errstat := SNMP_DEFAULT_ERR, errindex := SNMP_DEFAULT_ERR,
      variables := Except(pdu.variables, pdu.errindex))
  }

  /** What has been copied when the variables up to place p have been dealt with. */
  function Copied(vars: seq<Var>, k: int, p: nat): seq<Var>
    requires p <= |vars|
  {
    if 1 <= k <= p then Except(vars[..p], k) else vars[..p]
  }

  lemma CopiedNone(vars: seq<Var>, k: int)
    ensures Copied(vars, k, 0) == []
  {}

  lemma CopiedStep(vars: seq<Var>, k: int, p: nat)
    requires p < |vars|
    ensures Copied(vars, k, p + 1) == if k == p + 1 then Copied(vars, k, p) else Copied(vars, k, p) + [vars[p]]
  {
    assert vars[..p + 1] == vars[..p] + [vars[p]];
  }

  lemma CopiedAll(vars: seq<Var>, k: int)
    ensures 1 <= k <= |vars| ==> Copied(vars, k, |vars|) == Except(vars, k)
  {
    assert vars[..|vars|] == vars;
  }

  /** Crashed: the source follows the next pointer of a variable that is NULL. */
  datatype Outcome = Crashed | Unable | Retry(pdu: Pdu)

  /** The walk skips a first variable that a response without variables does not have. */
  method FixPdu(pdu: Pdu, command: byte) returns (r: Outcome)
    ensures r.Crashed? <==> pdu.command == 0xA2 && pdu.errstat != 0 && pdu.errindex == 1 && pdu.variables == []
    ensures r.Retry? <==> pdu.command == 0xA2 && pdu.errstat != 0 && 1 <= pdu.errindex <= |pdu.variables| && |pdu.variables| >= 2
    ensures r.Retry? ==> r.pdu == Fixed(pdu, command)
  {
    if pdu.command != SNMP_PDU_RESPONSE || pdu.errstat == 0 || pdu.errindex <= 0 {
      return Unable;
    }
    hide Copied, Except;
    var copied, i, crashed := CopyVars(pdu.variables, pdu.errindex);
    if crashed { return Crashed; }
    CopiedAll(pdu.variables, pdu.errindex);
    CopiedSize(pdu.variables, pdu.errindex);
    if i < pdu.errindex || |copied| == 0 {
      return Unable;
    }
    r := Retry(pdu.(command := command, reqid := SNMP_DEFAULT_REQID, errstat := SNMP_DEFAULT_ERR, errindex := SNMP_DEFAULT_ERR,
      variables := copied));
  }

  lemma CopiedSize(vars: seq<Var>, k: int)
    ensures |Copied(vars, k, |vars|)| == if 1 <= k <= |vars| then |vars| - 1 else |vars|
  {}

  /** The loop over the list: i counts the variables passed. */
  method CopyVars(vars: seq<Var>, k: int) returns (copied: seq<Var>, i: int, crashed: bool)
    requires k >= 1
    ensures crashed <==> k == 1 && vars == []
    ensures !crashed ==> copied == Copied(vars, k, |vars|) && (i < k <==> |vars| < k)
  {
    hide Copied, Except;
    var v: nat := 0;
    i, copied, crashed := 1, [], false;
    CopiedNone(vars, k);
    if vars != [] { CopiedStep(vars, k, 0); }
    if k == i {
      if v == |vars| { return copied, i, true; }
      v, i := v + 1, i + 1;
    }
    if v < |vars| {
      CopiedStep(vars, k, v);
      copied := [vars[v]];
      while v + 1 < |vars|
        invariant 0 <= v < |vars| && i == v + 1 && copied == Copied(vars, k, v + 1)
        decreases |vars| - v
      {
        CopiedStep(vars, k, v + 1);
        i := i + 1;
        if i != k { copied := copied + [vars[v + 1]]; }
        v := v + 1;
      }
    }
  }

  /** The new request has its own command, and request id and error fields as snmp_pdu_create leaves them. */
  lemma FixedFields(pdu: Pdu, command: byte)
    requires Fixable(pdu)
    ensures var p := Fixed(pdu, command);
            && p.command == command && p.reqid == 0 && p.errstat == -1 && p.errindex == -1
            && p.nonRepeaters == pdu.nonRepeaters && p.maxRepetitions == pdu.maxRepetitions
  {}

  /** The variables are those of the response, less exactly the one marked. */
  lemma FixedVariables(pdu: Pdu, command: byte, j: int)
    requires Fixable(pdu) && 1 <= j <= |pdu.variables|
    ensures |Fixed(pdu, command).variables| == |pdu.variables| - 1
    ensures j < pdu.errindex ==> Fixed(pdu, command).variables[j - 1] == pdu.variables[j - 1]
    ensures j > pdu.errindex ==> Fixed(pdu, command).variables[j - 2] == pdu.variables[j - 1]
  {}
}
