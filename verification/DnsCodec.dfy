/** The packing and unpacking loops of lib/rfc1035.c on buffers. */
module DnsCodec {
  import opened Buffers
  import opened DnsName

  /** enc has been written at pos and nothing else has changed. */
  ghost predicate Wrote(a: Text, b: Text, pos: nat, enc: Text) {
    Kept(a, b, pos, |enc|) && HasAt(b, pos, enc)
  }

  lemma WroteBoth(a: Text, b: Text, c: Text, pos: nat, e: Text, f: Text)
    requires Wrote(a, b, pos, e) && Wrote(b, c, pos + |e|, f)
    ensures Wrote(a, c, pos, e + f)
  {
    forall i | pos <= i < pos + |e| ensures c[i] == e[i - pos] {
      assert b[i] == b[pos..pos + |e|][i - pos];
    }
    assert c[pos..pos + |e|] == e;
    HasParts(c, pos, e, f);
  }

  lemma WroteNone(a: Text, pos: nat)
    requires pos <= |a|
    ensures Wrote(a, a, pos, [])
  {}

  /** rfc1035LabelPack; the null label is the empty one. */
  method LabelPack(buf: array<byte>, pos: nat, lab: Text) returns (off: nat)
    requires pos + |PackLabel(lab)| <= buf.Length
    modifies buf
    ensures off == |PackLabel(lab)| && Wrote(old(buf[..]), buf[..], pos, PackLabel(lab))
  {
    var len := |lab|;
    if len > MAXLABELSZ { len := MAXLABELSZ; }
    buf[pos] := len;
    forall i | 0 <= i < len { buf[pos + 1 + i] := lab[i]; }
    off := 1 + len;
    assert buf[..][pos..pos + off] == PackLabel(lab);
  }

  lemma TokenStep(s: Text, i: nat)
    requires i < |s|
    ensures s[i] == DOT ==> Tokens(s[i..]) == Tokens(s[i + 1..])
    ensures s[i] != DOT ==> var n := Run(s[i..]); Tokens(s[i..]) == [s[i..i + n]] + Tokens(s[i + n..]) && 0 < n <= |s| - i
  {
    assert s[i..][1..] == s[i + 1..];
    if s[i] != DOT {
      var n := Run(s[i..]);
      assert s[i..][..n] == s[i..i + n] && s[i..][n..] == s[i + n..];
    }
  }

  lemma LabelStep(lab: Text, ls: seq<Text>)
    ensures PackLabels([lab] + ls) == PackLabel(lab) + PackLabels(ls)
  {
    assert ([lab] + ls)[1..] == ls;
  }

  lemma NoTokens(s: Text)
    ensures PackLabels(Tokens(s[|s|..])) == [] && PackLabel([]) == [0]
  {}

  /** rfc1035NamePack. The buffer has room, or the assertions on sz would fail. */
  method NamePack(buf: array<byte>, pos: nat, name: Text) returns (off: nat)
    requires pos + |PackName(name)| <= buf.Length
    modifies buf
    ensures off == |PackName(name)| && Wrote(old(buf[..]), buf[..], pos, PackName(name))
  {
    hide Tokens, PackLabels, PackLabel, Wrote, Run;
    off := 0;
    var i := 0;
    ghost var done: Text := [];
    assert name[0..] == name;
    WroteNone(buf[..], pos);
    while i < |name|
      invariant i <= |name| && off == |done|
      invariant PackLabels(Tokens(name)) == done + PackLabels(Tokens(name[i..]))
      invariant Wrote(old(buf[..]), buf[..], pos, done)
    {
      TokenStep(name, i);
      if name[i] == DOT {
        i := i + 1;
      } else {
        var n := Run(name[i..]);
        LabelStep(name[i..i + n], Tokens(name[i + n..]));
        ghost var before := buf[..];
        var len := LabelPack(buf, pos + off, name[i..i + n]);
        WroteBoth(old(buf[..]), before, buf[..], pos, done, PackLabel(name[i..i + n]));
        done := done + PackLabel(name[i..i + n]);
        off, i := off + len, i + n;
      }
    }
    NoTokens(name);
    assert i == |name| && PackLabels(Tokens(name)) == done;
    ghost var before := buf[..];
    var len := LabelPack(buf, pos + off, []);
    WroteBoth(old(buf[..]), before, buf[..], pos, done, [0]);
    off := off + len;
  }

  // ---------------------------------------------------------------- unpacking

  /** The text stands in the name buffer with a null octet behind it. */
  ghost predicate Terminated(name: Text, base: nat, text: Text) {
    base + |text| < |name| && HasAt(name, base, text) && name[base + |text|] == 0
  }

  /** Appending a label and its dot to what has been written. */
  method AppendLabel(buf: array<byte>, off: nat, len: nat, name: array<byte>, at: nat, ghost base: nat, ghost acc: Text)
    requires buf != name && off + len <= buf.Length && at == base + |acc| && at + len + 1 <= name.Length
    requires HasAt(name[..], base, acc)
    modifies name
    ensures HasAt(name[..], base, acc + buf[..][off..off + len] + [DOT])
    ensures Kept(old(name[..]), name[..], at, len + 1)
  {
    forall i | 0 <= i < len { name[at + i] := buf[off + i]; }
    name[at + len] := DOT;
    ghost var all := acc + buf[off..off + len] + [DOT];
    forall i | 0 <= i < |all| ensures name[base + i] == all[i] {
      if i < |acc| { assert old(name[..])[base..base + |acc|][i] == acc[i]; }
    }
    assert name[..][base..base + |all|] == all;
  }

  /** The terminator goes over the last dot, or to the start of an empty name. */
  method Terminate(name: array<byte>, base: nat, no: nat, ghost acc: Text)
    requires no == |acc| && base < name.Length && base + no <= name.Length && HasAt(name[..], base, acc)
    modifies name
    ensures Terminated(name[..], base, DropLast(acc)) && Kept(old(name[..]), name[..], base, if no == 0 then 1 else no)
  {
    if no != 0 {
      name[base + no - 1] := 0;
    } else {
      name[base] := 0;
    }
    ghost var t := DropLast(acc);
    forall i | 0 <= i < |t| ensures name[base + i] == t[i] {
      assert old(name[..])[base..base + |acc|][i] == acc[i];
    }
    assert name[..][base..base + |t|] == t;
  }

  /** A name that continues at a pointer: what was written here, then what is found there. */
  lemma Continued(a: Text, b: Text, base: nat, acc: Text, t: Text)
    requires HasAt(a, base, acc) && |a| == |b| && (forall i :: 0 <= i < |a| && i < base + |acc| ==> a[i] == b[i])
    requires Terminated(b, base + |acc|, t)
    ensures Terminated(b, base, acc + t)
  {
    forall i | 0 <= i < |acc| ensures b[base + i] == acc[i] {
      assert a[base..base + |acc|][i] == acc[i];
    }
    assert b[base..base + |acc|] == acc;
    HasParts(b, base, acc, t);
  }

  /** One round of unpacking, by the octet at off. */
  lemma UnpackStep(msg: Text, off: nat, acc: Text, ns: nat, depth: nat)
    requires |acc| < ns && depth <= 65
    ensures off >= |msg| ==> Unpack(msg, off, acc, ns, depth) == Bad
    ensures off < |msg| && MAXLABELSZ < msg[off] <= 191 ==> Unpack(msg, off, acc, ns, depth) == Bad
    ensures off < |msg| && msg[off] == 0 ==> Unpack(msg, off, acc, ns, depth) == Name(DropLast(acc), off + 1)
    ensures off < |msg| && 0 < msg[off] <= MAXLABELSZ ==> var c := msg[off];
              if c > ns - |acc| - 1 || off + 1 + c >= |msg| then Unpack(msg, off, acc, ns, depth) == Bad
              else var acc' := acc + msg[off + 1..off + 1 + c] + [DOT];
                Unpack(msg, off, acc, ns, depth) ==
                  if |acc'| < ns then Unpack(msg, off + 1 + c, acc', ns, depth) else Name(DropLast(acc'), off + 1 + c)
  {}

  datatype Stop = Failed | Ended | AtPointer

  /** The labels up to the null label, a pointer, an error or the end of the name buffer. */
  method ReadLabels(buf: array<byte>, sz: nat, off0: nat, name: array<byte>, base: nat, ns: nat, ghost depth: nat)
    returns (stop: Stop, off: nat, no: nat, ghost acc: Text)
    requires buf != name && sz <= buf.Length && 0 < ns && base + ns <= name.Length && depth <= 65
    modifies name
    ensures no == |acc| <= ns && HasAt(name[..], base, acc) && Kept(old(name[..]), name[..], base, ns)
    ensures var r := Unpack(buf[..sz], off0, [], ns, depth);
            && (stop == Failed ==> r == Bad)
            && (stop == Ended ==> r == Name(DropLast(acc), off))
            && (stop == AtPointer ==> off < sz && buf[off] > 191 && no < ns && r == Unpack(buf[..sz], off, acc, ns, depth))
  {
    hide Kept, Unpack;
    stop, off, no, acc := Failed, off0, 0, [];
    ghost var msg := buf[..sz];
    KeptAll(name[..], base, ns);
    while true
      invariant no == |acc| < ns && HasAt(name[..], base, acc) && Kept(old(name[..]), name[..], base, ns)
      invariant buf[..sz] == msg && Unpack(msg, off0, [], ns, depth) == Unpack(msg, off, acc, ns, depth)
      decreases sz - off
    {
      UnpackStep(msg, off, acc, ns, depth);
      if off >= sz { return; }
      var c := buf[off];
      if c > 191 {
        stop := AtPointer;
        return;
      }
      if c > MAXLABELSZ { return; }
      off := off + 1;
      if c == 0 { break; }
      if c > ns - no - 1 { return; }
      if off + c >= sz { return; }
      ghost var before := name[..];
      AppendLabel(buf, off, c, name, base + no, base, acc);
      KeptBoth(old(name[..]), before, name[..], base, ns, base + no, c + 1);
      Sliced(buf[..], sz, off, c);
      acc := acc + msg[off..off + c] + [DOT];
      off, no := off + c, no + c + 1;
      if no >= ns { break; }
    }
    stop := Ended;
  }

  lemma PointerStep(msg: Text, off: nat, acc: Text, ns: nat, depth: nat)
    requires |acc| < ns && depth <= 65 && off < |msg| && msg[off] > 191
    ensures depth > 64 || off + 2 > |msg| || Pointer(msg[off], msg[off + 1]) >= |msg| ==> Unpack(msg, off, acc, ns, depth) == Bad
    ensures depth <= 64 && off + 2 <= |msg| && Pointer(msg[off], msg[off + 1]) < |msg| ==>
              var t := Unpack(msg, Pointer(msg[off], msg[off + 1]), [], ns - |acc|, depth + 1);
              Unpack(msg, off, acc, ns, depth) == if t.Bad? then Bad else Name(acc + t.text, off + 2)
  {}

  /**
   rfc1035NameUnpack of a message of sz octets into ns octets of the name buffer at base. The octet
   behind the message must be readable: a pointer is fetched before its second octet is known to exist.
   */
  method NameUnpack(buf: array<byte>, sz: nat, off0: nat, name: array<byte>, base: nat, ns: nat, depth: nat) returns (ok: bool, off: nat)
    requires buf != name && sz < buf.Length && 0 < ns && base + ns <= name.Length && depth <= 65
    modifies name
    ensures var r := Unpack(buf[..sz], off0, [], ns, depth);
            && (ok <==> r.Name?)
            && (ok ==> off == r.off && Terminated(name[..], base, r.text))
    ensures Kept(old(name[..]), name[..], base, ns)
    decreases 65 - depth
  {
    hide Terminated, Kept, Unpack, Pointer;
    ghost var was, msg := name[..], buf[..sz];
    var stop, no; ghost var acc;
    stop, off, no, acc := ReadLabels(buf, sz, off0, name, base, ns, depth);
    ghost var before := name[..];
    if stop == Failed { return false, off; }
    if stop == Ended {
      Terminate(name, base, no, acc);
      KeptBoth(was, before, name[..], base, ns, base, if no == 0 then 1 else no);
      return true, off;
    }
    PointerStep(msg, off, acc, ns, depth);
    if depth > 64 { return false, off; }
    var ptr := Pointer(buf[off], buf[off + 1]);
    off := off + 2;
    if off > sz { return false, off; }
    if ptr >= sz { return false, off; }
    var end;
    ok, end := NameUnpack(buf, sz, ptr, name, base + no, ns - no, depth + 1);
    KeptBoth(was, before, name[..], base, ns, base + no, ns - no);
    if ok {
      KeptBefore(before, name[..], base + no, ns - no);
      Continued(before, name[..], base, acc, Unpack(msg, ptr, [], ns - no, depth + 1).text);
    }
  }

  lemma Sliced(a: Text, sz: nat, off: nat, c: nat)
    requires off + c <= sz <= |a|
    ensures a[..sz][off..off + c] == a[off..off + c]
  {}

  lemma KeptAll(a: Text, pos: nat, len: nat)
    ensures Kept(a, a, pos, len)
  {}

  lemma KeptBefore(a: Text, b: Text, pos: nat, len: nat)
    requires Kept(a, b, pos, len)
    ensures |a| == |b| && forall i :: 0 <= i < |a| && i < pos ==> a[i] == b[i]
  {}
}
