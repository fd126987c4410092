/**
 Domain names of lib/rfc1035.c (sections 3.1 and 4.1.4 of RFC 1035): the octets a name is packed
 into, what unpacking computes, and that one undoes the other.
 */
module DnsName {
  import opened Buffers

  type Text = seq<byte>

  const DOT: byte := 46
  const MAXLABELSZ := 63
  const MAXHOSTNAMESZ := 256

  datatype Unpacked = Bad | Name(text: Text, off: nat)

  // ---------------------------------------------------------------- packing

  /** Octets up to the next dot. */
  function Run(s: Text): (n: nat)
    ensures n <= |s| && (forall i :: 0 <= i < n ==> s[i] != DOT) && (n < |s| ==> s[n] == DOT)
  {
    if s == [] || s[0] == DOT then 0 else 1 + Run(s[1..])
  }

  /** The tokens strtok finds: maximal runs without a dot, none of them empty. */
  function Tokens(s: Text): seq<Text>
    decreases |s|
  {
    if s == [] then []
    else if s[0] == DOT then Tokens(s[1..])
    else [s[..Run(s)]] + Tokens(s[Run(s)..])
  }

  function CutLabel(lab: Text): Text {
    if |lab| > MAXLABELSZ then lab[..MAXLABELSZ] else lab
  }

  function PackLabel(lab: Text): Text {
    [|CutLabel(lab)|] + CutLabel(lab)
  }

  function PackLabels(ls: seq<Text>): Text {
    if ls == [] then [] else PackLabel(ls[0]) + PackLabels(ls[1..])
  }

  /** rfc1035NamePack: the labels and the null label. */
  function PackName(name: Text): Text {
    PackLabels(Tokens(name)) + [0]
  }

  /** Labels as they are written out, each with a dot behind it. */
  function Dotted(ls: seq<Text>): Text {
    if ls == [] then [] else CutLabel(ls[0]) + [DOT] + Dotted(ls[1..])
  }

  function DropLast(s: Text): Text {
    if s == [] then [] else s[..|s| - 1]
  }

  /** The normal form of a name: empty labels dropped, labels cut to 63 octets. */
  function Normal(name: Text): Text {
    DropLast(Dotted(Tokens(name)))
  }

  // ---------------------------------------------------------------- unpacking

  /** The offset in the low fourteen bits of two octets. */
  function Pointer(hi: nat, lo: nat): nat {
    hi % 64 * 256 + lo
  }

  /**
   rfc1035NameUnpack from off on, in a name buffer of ns octets of which acc have been written at this
   level of recursion. Each pointer followed uses up depth; between pointers the offset grows.
   */
  function Unpack(buf: Text, off: nat, acc: Text, ns: nat, depth: nat): (r: Unpacked)
    requires |acc| < ns && depth <= 65
    ensures r.Name? ==> |r.text| < ns
    decreases 65 - depth, |buf| - off
  {
    if off >= |buf| then Bad
    else
      var c := buf[off];
      if c > 191 then
        if depth > 64 || off + 2 > |buf| then Bad
        else
          var ptr := Pointer(c, buf[off + 1]);
          if ptr >= |buf| then Bad
          else
            match Unpack(buf, ptr, [], ns - |acc|, depth + 1)
            case Bad => Bad
            case Name(t, _) => Name(acc + t, off + 2)
      else if c > MAXLABELSZ then Bad
      else if c == 0 then Name(DropLast(acc), off + 1)
      else if c > ns - |acc| - 1 || off + 1 + c >= |buf| then Bad
      else
        var acc' := acc + buf[off + 1..off + 1 + c] + [DOT];
        if |acc'| < ns then Unpack(buf, off + 1 + c, acc', ns, depth)
        else Name(DropLast(acc'), off + 1 + c)
  }

  // ---------------------------------------------------------------- round trip

  ghost predicate Labels(ls: seq<Text>) {
    forall i :: 0 <= i < |ls| ==> ls[i] != []
  }

  lemma {:induction false} TokensAreLabels(s: Text)
    ensures Labels(Tokens(s)) && NoDots(Tokens(s))
    decreases |s|
  {
    if s != [] {
      if s[0] == DOT { TokensAreLabels(s[1..]); } else { TokensAreLabels(s[Run(s)..]); }
    }
  }

  /** What unpacking does with one packed label. */
  lemma OneLabel(buf: Text, off: nat, acc: Text, ns: nat, depth: nat, lab: Text)
    requires |acc| < ns && depth <= 65 && lab != []
    requires HasAt(buf, off, PackLabel(lab)) && off + |PackLabel(lab)| < |buf|
    ensures var acc', off' := acc + CutLabel(lab) + [DOT], off + |PackLabel(lab)|;
            Unpack(buf, off, acc, ns, depth) ==
              if |acc'| > ns then Bad
              else if |acc'| < ns then Unpack(buf, off', acc', ns, depth)
              else Name(DropLast(acc'), off')
  {
    var c := CutLabel(lab);
    assert buf[off] == buf[off..off + |PackLabel(lab)|][0] == |c|;
    assert buf[off + 1..off + 1 + |c|] == buf[off..off + |PackLabel(lab)|][1..] == c;
  }

  lemma NullLabel(buf: Text, off: nat, acc: Text, ns: nat, depth: nat)
    requires |acc| < ns && depth <= 65 && HasAt(buf, off, [0])
    ensures Unpack(buf, off, acc, ns, depth) == Name(DropLast(acc), off + 1)
  {
    assert buf[off] == buf[off..off + 1][0];
  }

  /** What packed labels unpack to. The loop ends early when a label just fills the buffer. */
  function Outcome(off: nat, acc: Text, ns: nat, ls: seq<Text>): Unpacked
    decreases |ls|
  {
    if ls == [] then Name(DropLast(acc), off + 1)
    else
      var acc', off' := acc + CutLabel(ls[0]) + [DOT], off + |PackLabel(ls[0])|;
      if |acc'| > ns then Bad
      else if |acc'| < ns then Outcome(off', acc', ns, ls[1..])
      else Name(DropLast(acc'), off')
  }

  lemma {:induction false} LabelsUnpack(buf: Text, off: nat, acc: Text, ns: nat, depth: nat, ls: seq<Text>)
    requires |acc| < ns && depth <= 65 && Labels(ls) && HasAt(buf, off, PackLabels(ls) + [0])
    ensures Unpack(buf, off, acc, ns, depth) == Outcome(off, acc, ns, ls)
    decreases |ls|
  {
    hide CutLabel, PackLabel, Unpack;
    if ls == [] {
      NullLabel(buf, off, acc, ns, depth);
    } else {
      var e, acc' := PackLabel(ls[0]), acc + CutLabel(ls[0]) + [DOT];
      assert PackLabels(ls) + [0] == e + (PackLabels(ls[1..]) + [0]);
      HasParts(buf, off, e, PackLabels(ls[1..]) + [0]);
      OneLabel(buf, off, acc, ns, depth, ls[0]);
      if |acc'| < ns { LabelsUnpack(buf, off + |e|, acc', ns, depth, ls[1..]); }
    }
  }

  ghost predicate NoDots(ls: seq<Text>) {
    forall i :: 0 <= i < |ls| ==> DOT !in ls[i]
  }

  /** In terms of the whole text: it is taken whole, or cut at a dot that falls on the last place, or refused. */
  lemma {:induction false} OutcomeIs(off: nat, acc: Text, ns: nat, ls: seq<Text>)
    requires |acc| < ns && Labels(ls) && NoDots(ls)
    ensures var all, r := acc + Dotted(ls), Outcome(off, acc, ns, ls);
            if |all| < ns then r == Name(DropLast(all), off + |PackLabels(ls)| + 1)
            else if all[ns - 1] == DOT then r.Name? && r.text == all[..ns - 1]
            else r == Bad
    ensures |acc + Dotted(ls)| == ns ==> Outcome(off, acc, ns, ls) == Name(DropLast(acc + Dotted(ls)), off + |PackLabels(ls)|)
    decreases |ls|
  {
    if ls == [] {
      assert acc + [] == acc;
    } else {
      var e, lab := PackLabel(ls[0]), CutLabel(ls[0]);
      var acc' := acc + lab + [DOT];
      hide CutLabel, PackLabel;
      assert acc + Dotted(ls) == acc' + Dotted(ls[1..]);
      if |acc'| < ns {
        OutcomeIs(off + |e|, acc', ns, ls[1..]);
      } else if |acc'| > ns {
        assert (acc + Dotted(ls))[ns - 1] == lab[ns - 1 - |acc|];
      } else {
        assert (acc + Dotted(ls))[..ns - 1] == DropLast(acc');
        DottedEmpty(ls[1..]);
      }
    }
  }

  /**
   Unpacking a packed name into ns octets gives its normal form, if that leaves room for a terminator.
   With exactly that room the null label is left unread. A longer name is refused, unless a dot falls on
   the last place: then the rest of the name is lost without an error.
   */
  lemma NameRoundTrip(name: Text, before: Text, after: Text, ns: nat)
    requires ns > 0
    ensures var n, e := Normal(name), PackName(name);
            var r := Unpack(before + e + after, |before|, [], ns, 0);
            && (|n| + 1 < ns || n == [] ==> r == Name(n, |before| + |e|))
            && (|n| + 1 == ns && n != [] ==> r == Name(n, |before| + |e| - 1))
            && (|n| >= ns && n[ns - 1] == DOT ==> r.Name? && r.text == n[..ns - 1])
            && (|n| >= ns && n[ns - 1] != DOT ==> r == Bad)
  {
    hide Unpack, Outcome, PackLabels, Dotted, Tokens;
    var ls := Tokens(name);
    var buf := before + PackName(name) + after;
    TokensAreLabels(name);
    assert buf[|before|..|before| + |PackName(name)|] == PackName(name);
    LabelsUnpack(buf, |before|, [], ns, 0, ls);
    var d := Dotted(ls);
    assert [] + d == d;
    OutcomeIs(|before|, [], ns, ls);
    DottedEmpty(ls);
    NoLabels(|before|, ns);
  }

  lemma {:induction false} RunTo(a: Text, s: Text)
    requires DOT !in a
    ensures Run(a + [DOT] + s) == |a|
  {
    if a != [] {
      RunTo(a[1..], s);
      assert (a + [DOT] + s)[1..] == a[1..] + [DOT] + s;
    }
  }

  /** A full label in front of a name. */
  lemma FullLabel(a: Text, s: Text)
    requires |a| == MAXLABELSZ && DOT !in a
    ensures Dotted(Tokens(a + [DOT] + s)) == a + [DOT] + Dotted(Tokens(s))
  {
    hide Run;
    var t := a + [DOT] + s;
    RunTo(a, s);
    assert t[..|a|] == a && t[|a|..] == [DOT] + s && t[|a|..][1..] == s;
    assert Tokens(t[|a|..]) == Tokens(s);
    assert Tokens(t) == [a] + Tokens(s);
  }

  /** Behind four full labels any tail is lost without an error. */
  lemma TailIsLost(a: Text, tail: Text, before: Text, after: Text)
    requires |a| == MAXLABELSZ && DOT !in a && Tokens(tail) != []
    ensures var four := a + [DOT] + (a + [DOT] + (a + [DOT] + a));
            var name := a + [DOT] + (a + [DOT] + (a + [DOT] + (a + [DOT] + tail)));
            var r := Unpack(before + PackName(name) + after, |before|, [], MAXHOSTNAMESZ, 0);
            && Normal(name) == four + [DOT] + Normal(tail)
            && r.Name? && r.text == four
  {
    hide Unpack, Tokens, Dotted, PackName;
    var one := a + [DOT] + tail;
    var two := a + [DOT] + one;
    var three := a + [DOT] + two;
    FullLabel(a, tail);
    FullLabel(a, one);
    FullLabel(a, two);
    FullLabel(a, three);
    var name := a + [DOT] + three;
    var four := a + [DOT] + (a + [DOT] + (a + [DOT] + a));
    var d := Dotted(Tokens(tail));
    TokensAreLabels(tail);
    DottedEmpty(Tokens(tail));
    assert Dotted(Tokens(name)) == four + [DOT] + d;
    assert Normal(name) == four + [DOT] + Normal(tail);
    assert Normal(name)[..MAXHOSTNAMESZ - 1] == four;
    NameRoundTrip(name, before, after, MAXHOSTNAMESZ);
  }

  lemma NoLabels(off: nat, ns: nat)
    ensures Outcome(off, [], ns, []) == Name([], off + 1) && PackLabels([]) == []
  {}

  lemma DottedEmpty(ls: seq<Text>)
    requires Labels(ls)
    ensures Dotted(ls) == [] <==> ls == []
    ensures ls != [] ==> |Dotted(ls)| >= 2 && Dotted(ls)[|Dotted(ls)| - 1] == DOT
    ensures ls == [] ==> PackLabels(ls) == []
  {
    if ls != [] {
      assert |CutLabel(ls[0])| >= 1;
      if |ls| > 1 { DottedEmpty(ls[1..]); }
    }
  }

  // ---------------------------------------------------------------- compression

  /** A pointer to p, as section 4.1.4 of RFC 1035 writes it, goes on at p, up to 65 of them deep. */
  lemma PointerLeads(buf: Text, off: nat, acc: Text, ns: nat, depth: nat, p: nat)
    requires |acc| < ns && depth <= 65 && p < 16384 && HasAt(buf, off, [0xC0 + p / 256, p % 256])
    ensures Unpack(buf, off, acc, ns, depth) ==
              if depth == 65 || p >= |buf| then Bad
              else
                var r := Unpack(buf, p, [], ns - |acc|, depth + 1);
                if r.Bad? then Bad else Name(acc + r.text, off + 2)
  {
    var hi, lo := 0xC0 + p / 256, p % 256;
    assert buf[off] == buf[off..off + 2][0] == hi && buf[off + 1] == buf[off..off + 2][1] == lo;
    PointerIs(p);
    hide Pointer, HasAt;
  }

  lemma PointerIs(p: nat)
    requires p < 16384
    ensures Pointer(0xC0 + p / 256, p % 256) == p
  {}

  /** Names as packed: each label behind its length, cut to 63 octets, and the null label; dots only separate. */
  lemma PackedByLabels(a: Text, s: Text)
    requires a != [] && 0x2E !in a
    ensures var cut := if |a| > 63 then a[..63] else a;
            PackName(a + [0x2E] + s) == [|cut|] + cut + PackName(s) && PackName(a) == [|cut|] + cut + [0]
    ensures PackName([0x2E] + s) == PackName(s) && PackName([]) == [0]
  {
    hide Run;
    var t, dot := a + [0x2E] + s, [0x2E] + s;
    RunTo(a, s);
    assert t[..|a|] == a && t[|a|..] == dot && dot[1..] == s;
    assert Tokens(dot) == Tokens(s) && Tokens(t) == [a] + Tokens(s);
    RunAll(a);
    assert a[..|a|] == a && a[|a|..] == [] && Tokens(a) == [a] + Tokens([]) == [a];
    assert ([a] + Tokens(s))[1..] == Tokens(s) && [a][1..] == [];
    assert PackLabels([a]) == PackLabel(a) + PackLabels([]) == PackLabel(a);
    hide Tokens;
    assert PackLabels([a] + Tokens(s)) + [0] == PackLabel(a) + (PackLabels(Tokens(s)) + [0]);
  }

  lemma {:induction false} RunAll(a: Text)
    requires 0x2E !in a
    ensures Run(a) == |a|
  {
    if a != [] { RunAll(a[1..]); }
  }

  /** Labels with anything behind them. */
  lemma {:induction false} LabelsFirst(buf: Text, off: nat, acc: Text, ns: nat, depth: nat, ls: seq<Text>)
    requires depth <= 65 && Labels(ls) && HasAt(buf, off, PackLabels(ls)) && off + |PackLabels(ls)| < |buf|
    requires |acc + Dotted(ls)| < ns
    ensures Unpack(buf, off, acc, ns, depth) == Unpack(buf, off + |PackLabels(ls)|, acc + Dotted(ls), ns, depth)
    decreases |ls|
  {
    hide CutLabel, PackLabel, Unpack;
    if ls == [] {
      assert acc + [] == acc;
    } else {
      var e, acc' := PackLabel(ls[0]), acc + CutLabel(ls[0]) + [DOT];
      HasParts(buf, off, e, PackLabels(ls[1..]));
      OneLabel(buf, off, acc, ns, depth, ls[0]);
      assert acc + Dotted(ls) == acc' + Dotted(ls[1..]);
      LabelsFirst(buf, off + |e|, acc', ns, depth, ls[1..]);
    }
  }

  lemma NameAt(buf: Text, p: nat, ns: nat, depth: nat, name: Text)
    requires depth <= 65 && HasAt(buf, p, PackName(name)) && |Normal(name)| + 1 < ns
    ensures var r := Unpack(buf, p, [], ns, depth); r.Name? && r.text == Normal(name)
  {
    hide Unpack, Outcome, PackLabels, Dotted, Tokens;
    var ls := Tokens(name);
    TokensAreLabels(name);
    LabelsUnpack(buf, p, [], ns, depth, ls);
    OutcomeIs(p, [], ns, ls);
    assert [] + Dotted(ls) == Dotted(ls);
    DottedEmpty(ls);
  }

  /** A compressed name, labels and a pointer to a packed name, unpacks to the labels and that name. */
  lemma CompressedName(buf: Text, off: nat, ns: nat, ls: seq<Text>, p: nat, name: Text)
    requires Labels(ls) && p < 16384 && HasAt(buf, off, PackLabels(ls) + [0xC0 + p / 256, p % 256]) && HasAt(buf, p, PackName(name))
    requires |Dotted(ls)| + |Normal(name)| + 1 < ns
    ensures Unpack(buf, off, [], ns, 0) == Name(Dotted(ls) + Normal(name), off + |PackLabels(ls)| + 2)
  {
    hide Unpack, PackLabels, Dotted, Normal, PackName;
    HasParts(buf, off, PackLabels(ls), [0xC0 + p / 256, p % 256]);
    assert [] + Dotted(ls) == Dotted(ls);
    LabelsFirst(buf, off, [], ns, 0, ls);
    NameTakesSpace(name);
    PointerLeads(buf, off + |PackLabels(ls)|, Dotted(ls), ns, 0, p);
    NameAt(buf, p, ns - |Dotted(ls)|, 1, name);
  }

  lemma NameTakesSpace(name: Text)
    ensures PackName(name) != []
  {}

  /** Every offset in the set holds a pointer into the set. */
  ghost predicate Cycle(buf: Text, s: set<nat>) {
    forall o <- s :: o + 2 <= |buf| && buf[o] > 191 && Pointer(buf[o], buf[o + 1]) in s
  }

  /** Pointers that lead only to one another are refused. */
  lemma {:induction false} PointerLoop(buf: Text, off: nat, acc: Text, ns: nat, depth: nat, s: set<nat>)
    requires |acc| < ns && depth <= 65 && Cycle(buf, s) && off in s
    ensures Unpack(buf, off, acc, ns, depth) == Bad
    decreases 65 - depth
  {
    if depth <= 64 {
      PointerLoop(buf, Pointer(buf[off], buf[off + 1]), [], ns - |acc|, depth + 1, s);
    }
  }
}
