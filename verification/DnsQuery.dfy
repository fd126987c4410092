/** Headers, questions and queries of lib/rfc1035.c (section 4.1 of RFC 1035). */
module DnsQuery {
  import opened Options
  import opened Buffers
  import opened DnsName
  import Bits

  const TYPE_A := 1
  const CLASS_IN := 1

  type uint16 = x: int | 0 <= x < 0x1_0000
  type bit = x: int | 0 <= x < 2
  type nibble = x: int | 0 <= x < 16

  datatype Header = Header(
    id: uint16, qr: bit, opcode: nibble, aa: bit, tc: bit, rd: bit, ra: bit, rcode: nibble,
    qdcount: uint16, ancount: uint16, nscount: uint16, arcount: uint16)

  datatype Query = Query(name: Text, qtype: int, qclass: int)

  function Put16(x: uint16): Text {
    [x / 256, x % 256]
  }

  function Get16(buf: Text, off: nat): int
    requires off + 2 <= |buf|
  {
    Join16(buf[off], buf[off + 1])
  }

  function Join16(hi: int, lo: int): int {
    hi * 256 + lo
  }

  function Flags(h: Header): int {
    FlagWord(h.qr, h.opcode, h.aa, h.tc, h.rd, h.ra, h.rcode)
  }

  /** The or of disjoint fields is their sum. */
  function FlagWord(qr: int, opcode: int, aa: int, tc: int, rd: int, ra: int, rcode: int): int {
    qr * 0x8000 + opcode * 0x800 + aa * 0x400 + tc * 0x200 + rd * 0x100 + ra * 0x80 + rcode
  }

  lemma FlagsFit(h: Header)
    ensures 0 <= Flags(h) < 0x1_0000
  {}

  /** rfc1035HeaderPack. */
  function PackHeader(h: Header): (s: Text)
    ensures |s| == 12
  {
    FlagsFit(h);
    Put16(h.id) + Put16(Flags(h)) + Put16(h.qdcount) + Put16(h.ancount) + Put16(h.nscount) + Put16(h.arcount)
  }

  /** rfc1035HeaderUnpack; the reserved bits are ignored. */
  function UnpackHeader(buf: Text): Option<Header> {
    if |buf| < 12 then None
    else
      var t := Get16(buf, 2);
      Some(Header(Get16(buf, 0), t / 0x8000 % 2, t / 0x800 % 16, t / 0x400 % 2, t / 0x200 % 2, t / 0x100 % 2, t / 0x80 % 2, t % 16,
        Get16(buf, 4), Get16(buf, 6), Get16(buf, 8), Get16(buf, 10)))
  }

  lemma HeaderRoundTrip(h: Header, rest: Text)
    ensures UnpackHeader(PackHeader(h) + rest) == Some(h)
  {
    var buf := PackHeader(h) + rest;
    FlagsFit(h);
    assert buf[0..2] == Put16(h.id) && buf[2..4] == Put16(Flags(h)) && buf[4..6] == Put16(h.qdcount);
    assert buf[6..8] == Put16(h.ancount) && buf[8..10] == Put16(h.nscount) && buf[10..12] == Put16(h.arcount);
    GotPut(buf, 0, h.id);
    GotPut(buf, 2, Flags(h));
    GotPut(buf, 4, h.qdcount);
    GotPut(buf, 6, h.ancount);
    GotPut(buf, 8, h.nscount);
    GotPut(buf, 10, h.arcount);
    FlagFields(h);
  }

  lemma GotPut(buf: Text, off: nat, x: uint16)
    requires off + 2 <= |buf| && buf[off..off + 2] == Put16(x)
    ensures Get16(buf, off) == x
  {
    assert buf[off] == buf[off..off + 2][0] && buf[off + 1] == buf[off..off + 2][1];
  }

  lemma FlagFields(h: Header)
    ensures var t := Flags(h);
            && t / 0x8000 % 2 == h.qr && t / 0x800 % 16 == h.opcode && t / 0x400 % 2 == h.aa && t / 0x200 % 2 == h.tc
            && t / 0x100 % 2 == h.rd && t / 0x80 % 2 == h.ra && t % 16 == h.rcode
  {
    var t := Flags(h);
    var low := h.ra * 0x80 + h.rcode;
    Pick(t, 0x8000, 2, 0, h.qr, t - h.qr * 0x8000);
    Pick(t, 0x800, 16, h.qr, h.opcode, h.aa * 0x400 + h.tc * 0x200 + h.rd * 0x100 + low);
    Pick(t, 0x400, 2, h.qr * 16 + h.opcode, h.aa, h.tc * 0x200 + h.rd * 0x100 + low);
    Pick(t, 0x200, 2, h.qr * 32 + h.opcode * 2 + h.aa, h.tc, h.rd * 0x100 + low);
    Pick(t, 0x100, 2, h.qr * 64 + h.opcode * 4 + h.aa * 2 + h.tc, h.rd, low);
    Pick(t, 0x80, 2, h.qr * 128 + h.opcode * 8 + h.aa * 4 + h.tc * 2 + h.rd, h.ra, h.rcode);
    Bits.Unique(t, 16, h.qr * 0x800 + h.opcode * 0x80 + h.aa * 0x40 + h.tc * 0x20 + h.rd * 0x10 + h.ra * 8, h.rcode);
  }

  /** The field of size m above a rest of size d. */
  lemma Pick(t: nat, d: nat, m: nat, above: nat, f: nat, rest: nat)
    requires d > 0 && m > 0 && f < m && rest < d && t == d * (m * above + f) + rest
    ensures t / d % m == f
  {
    Bits.Unique(t, d, m * above + f, rest);
    Bits.Unique(m * above + f, m, above, f);
  }

  /** rfc1035QueryUnpack at off. */
  function UnpackQuery(buf: Text, off: nat): Option<(Query, nat)> {
    match Unpack(buf, off, [], MAXHOSTNAMESZ, 0)
    case Bad => None
    case Name(text, p) =>
      if p + 4 > |buf| then None
      else Some((Query(text, Get16(buf, p), Get16(buf, p + 2)), p + 4))
  }

  /** The message rfc1035BuildAQuery builds, and the query it records. */
  function AQuery(hostname: Text, qid: uint16): Text {
    PackHeader(Header(qid, 0, 0, 0, 0, 1, 0, 0, 1, 0, 0, 0)) + PackName(hostname) + (Put16(TYPE_A) + Put16(CLASS_IN))
  }

  /** The octets of the query: recursion desired, one question, of type A and class IN. */
  lemma AQueryOctets(hostname: Text, qid: uint16)
    ensures AQuery(hostname, qid)
         == [qid / 256, qid % 256, 1, 0, 0, 1, 0, 0, 0, 0, 0, 0] + PackName(hostname) + [0, 1, 0, 1]
  {
    hide PackName;
    HeaderOctets(Header(qid, 0, 0, 0, 0, 1, 0, 0, 1, 0, 0, 0));
  }

  /** The octets of a header, as section 4.1.1 of RFC 1035 draws them. */
  lemma HeaderOctets(h: Header)
    ensures PackHeader(h) ==
      [h.id / 256, h.id % 256, h.qr * 128 + h.opcode * 8 + h.aa * 4 + h.tc * 2 + h.rd, h.ra * 128 + h.rcode]
      + [h.qdcount / 256, h.qdcount % 256, h.ancount / 256, h.ancount % 256]
      + [h.nscount / 256, h.nscount % 256, h.arcount / 256, h.arcount % 256]
  {
    FlagsFit(h);
    Bits.Unique(Flags(h), 256, h.qr * 128 + h.opcode * 8 + h.aa * 4 + h.tc * 2 + h.rd, h.ra * 128 + h.rcode);
  }

  function Recorded(hostname: Text): Query {
    Query(if |hostname| < MAXHOSTNAMESZ then hostname else hostname[..MAXHOSTNAMESZ - 1], TYPE_A, CLASS_IN)
  }

  // ---------------------------------------------------------------- comparing

  function Lower(c: byte): byte {
    if 65 <= c <= 90 then c + 32 else c
  }

  predicate Caseless(a: Text, b: Text) {
    |a| == |b| && forall i :: 0 <= i < |a| ==> Lower(a[i]) == Lower(b[i])
  }

  function Trim(s: Text): (t: Text)
    ensures |t| <= |s| && t == s[..|t|]
    ensures t == [] || t[|t| - 1] != DOT
  {
    if s == [] || s[|s| - 1] != DOT then s else Trim(s[..|s| - 1])
  }

  /** rfc1035QueryCompare: root labels are trimmed, from names without null octets, when the lengths differ. */
  predicate SameQuery(a: Query, b: Query) {
    && a.qtype == b.qtype && a.qclass == b.qclass
    && if |a.name| == |b.name| then Caseless(a.name, b.name) else Caseless(Trim(a.name), Trim(b.name))
  }

  /** Letters are compared by the lower-case letter of the alphabet, all else as it is. */
  lemma LowerIs(c: byte)
    ensures 'A' <= c as char <= 'Z' ==> Lower(c) as char == "abcdefghijklmnopqrstuvwxyz"[c - 'A' as int]
    ensures !('A' <= c as char <= 'Z') ==> Lower(c) == c
  {}

  predicate AllDots(s: Text) {
    forall i :: 0 <= i < |s| ==> s[i] == 0x2E
  }

  ghost predicate SameUpTo(a: Text, b: Text, n: nat) {
    n <= |a| && n <= |b| && Caseless(a[..n], b[..n]) && AllDots(a[n..]) && AllDots(b[n..])
  }

  /** Queries are the same if type and class are, and the names but for letter case and, if one is longer, dots at the end. */
  lemma SameQueryIs(a: Query, b: Query)
    ensures SameQuery(a, b) <==>
              && a.qtype == b.qtype && a.qclass == b.qclass
              && if |a.name| == |b.name| then Caseless(a.name, b.name) else exists n: nat :: SameUpTo(a.name, b.name, n)
  {
    var x, y := Trim(a.name), Trim(b.name);
    TrimmedDots(a.name);
    TrimmedDots(b.name);
    assert Caseless(x, y) ==> |x| == |y|;
    hide Caseless, AllDots, Trim;
    if |a.name| != |b.name| {
      if Caseless(x, y) { assert SameUpTo(a.name, b.name, |x|); }
      if n: nat :| SameUpTo(a.name, b.name, n) {
        TrimsTo(a.name, n);
        TrimsTo(b.name, n);
        TrimBoth(a.name[..n], b.name[..n]);
      }
    }
  }

  lemma {:induction false} TrimmedDots(s: Text)
    ensures AllDots(s[|Trim(s)|..])
  {
    if s != [] && s[|s| - 1] == DOT {
      TrimmedDots(s[..|s| - 1]);
      assert s[|Trim(s)|..] == s[..|s| - 1][|Trim(s)|..] + [0x2E];
    }
  }

  lemma {:induction false} TrimsTo(s: Text, n: nat)
    requires n <= |s| && AllDots(s[n..])
    ensures Trim(s) == Trim(s[..n])
  {
    if n < |s| {
      assert s[n..][|s| - 1 - n] == s[|s| - 1];
      assert s[..|s| - 1][n..] == s[n..][..|s| - 1 - n] && s[..|s| - 1][..n] == s[..n];
      TrimsTo(s[..|s| - 1], n);
    } else {
      assert s[..n] == s;
    }
  }

  lemma {:induction false} TrimBoth(a: Text, b: Text)
    requires Caseless(a, b)
    ensures Caseless(Trim(a), Trim(b))
  {
    if a != [] {
      assert a[|a| - 1] == DOT <==> b[|b| - 1] == DOT;
      if a[|a| - 1] == DOT { TrimBoth(a[..|a| - 1], b[..|b| - 1]); }
    }
  }

  /** The loops that trim root labels. */
  method TrimRoot(name: Text) returns (l: nat)
    ensures name[..|Trim(name)|] == Trim(name) && l == |Trim(name)|
  {
    l := |name|;
    assert name[..l] == name;
    while l > 0 && name[l - 1] == DOT
      invariant l <= |name| && Trim(name[..l]) == Trim(name)
    {
      assert name[..l][..l - 1] == name[..l - 1];
      l := l - 1;
    }
  }

  method QueryCompare(a: Query, b: Query) returns (same: bool)
    ensures same == SameQuery(a, b)
  {
    hide Trim;
    if a.qtype != b.qtype { return false; }
    if a.qclass != b.qclass { return false; }
    var la, lb := |a.name|, |b.name|;
    if la != lb {
      la := TrimRoot(a.name);
      lb := TrimRoot(b.name);
    }
    if la != lb { return false; }
    assert a.name[..|a.name|] == a.name && b.name[..|b.name|] == b.name;
    assert |a.name| == |b.name| ==> a.name[..la] == a.name && b.name[..la] == b.name;
    assert |a.name| != |b.name| ==> a.name[..la] == Trim(a.name) && b.name[..la] == Trim(b.name);
    var i := 0;
    while i < la && Lower(a.name[i]) == Lower(b.name[i])
      invariant i <= la && forall j :: 0 <= j < i ==> Lower(a.name[j]) == Lower(b.name[j])
    {
      i := i + 1;
    }
    same := i == la;
  }

  // ---------------------------------------------------------------- a query comes back equal

  /** When a long name is cut short, the octet at which unpacking stopped is the length of the next label. */
  lemma {:induction false} StopsShort(buf: Text, off: nat, acc: Text, ns: nat, ls: seq<Text>)
    requires |acc| < ns && Labels(ls) && NoDots(ls) && HasAt(buf, off, PackLabels(ls) + [0])
    requires |acc + Dotted(ls)| > ns && Outcome(off, acc, ns, ls).Name?
    ensures var p := Outcome(off, acc, ns, ls).off; p < |buf| && buf[p] > 0
    decreases |ls|
  {
    if ls != [] {
      var e, acc' := PackLabel(ls[0]), acc + CutLabel(ls[0]) + [DOT];
      assert PackLabels(ls) + [0] == e + (PackLabels(ls[1..]) + [0]);
      HasParts(buf, off, e, PackLabels(ls[1..]) + [0]);
      assert acc + Dotted(ls) == acc' + Dotted(ls[1..]);
      if |acc'| < ns {
        StopsShort(buf, off + |e|, acc', ns, ls[1..]);
      } else {
        var next := PackLabels(ls[1..]) + [0];
        assert ls[1..] != [] && next[0] == |CutLabel(ls[1])|;
        assert buf[off + |e|] == buf[off + |e|..off + |e| + |next|][0];
      }
    }
  }

  lemma Question(hostname: Text, qid: uint16)
    ensures var buf, e := AQuery(hostname, qid), PackName(hostname);
            && |buf| == 12 + |e| + 4
            && Get16(buf, 12 + |e|) == 1 && Get16(buf, 12 + |e| + 2) == 1 && Get16(buf, 12 + |e| - 1) == 0
            && HasAt(buf, 12, e)
  {
    hide PackHeader, Tokens, PackLabels;
    var buf, e := AQuery(hostname, qid), PackName(hostname);
    var h := PackHeader(Header(qid, 0, 0, 0, 0, 1, 0, 0, 1, 0, 0, 0));
    assert buf[12..12 + |e|] == e;
    assert buf[12 + |e|..] == [0, 1, 0, 1];
    assert buf[12 + |e|] == buf[12 + |e|..][0] && buf[12 + |e| + 1] == buf[12 + |e|..][1];
    assert buf[12 + |e| + 2] == buf[12 + |e|..][2] && buf[12 + |e| + 3] == buf[12 + |e|..][3];
    assert buf[12 + |e| - 1] == e[|e| - 1] == 0;
  }

  /** What a receiver makes of the question: the normal form, if it has at most 254 octets; otherwise never an A query. */
  lemma QuestionUnpacks(hostname: Text, qid: uint16)
    ensures var buf, n := AQuery(hostname, qid), Normal(hostname);
            if |n| <= 254 then UnpackQuery(buf, 12) == Some((Query(n, TYPE_A, CLASS_IN), |buf|))
            else UnpackQuery(buf, 12).None? || UnpackQuery(buf, 12).value.0.qtype != TYPE_A
  {
    hide Unpack, PackHeader, PackLabels, Tokens, Dotted, Outcome, Get16;
    var buf, n, e := AQuery(hostname, qid), Normal(hostname), PackName(hostname);
    var h := PackHeader(Header(qid, 0, 0, 0, 0, 1, 0, 0, 1, 0, 0, 0));
    Question(hostname, qid);
    assert buf == h + e + (Put16(TYPE_A) + Put16(CLASS_IN));
    NameRoundTrip(hostname, h, Put16(TYPE_A) + Put16(CLASS_IN), MAXHOSTNAMESZ);
    if |n| >= 256 {
      var ls := Tokens(hostname);
      TokensAreLabels(hostname);
      LabelsUnpack(buf, 12, [], 256, 0, ls);
      assert [] + Dotted(ls) == Dotted(ls);
      if Outcome(12, [], 256, ls).Name? {
        StopsShort(buf, 12, [], 256, ls);
        LargeType(buf, Outcome(12, [], 256, ls).off);
      }
    }
  }

  lemma LargeType(buf: Text, p: nat)
    requires p < |buf| && buf[p] > 0
    ensures p + 2 <= |buf| ==> Get16(buf, p) >= 256
  {}

  /** Labels of 1 to 63 octets with single dots between them. */
  predicate Hostname(s: Text)
    decreases |s|
  {
    1 <= Run(s) <= MAXLABELSZ && (Run(s) == |s| || Hostname(s[Run(s) + 1..]))
  }

  lemma FirstToken(s: Text)
    requires s != [] && s[0] != DOT
    ensures 0 < Run(s) <= |s|
    ensures Dotted(Tokens(s)) == CutLabel(s[..Run(s)]) + [DOT] + if Run(s) == |s| then [] else Dotted(Tokens(s[Run(s) + 1..]))
  {
    hide CutLabel;
    var n := Run(s);
    var rest := Tokens(s[n..]);
    assert ([s[..n]] + rest)[1..] == rest;
    if n < |s| { assert s[n..][1..] == s[n + 1..]; }
  }

  lemma Cutting(lab: Text)
    ensures |CutLabel(lab)| <= |lab|
    ensures |CutLabel(lab)| == |lab| <==> |lab| <= MAXLABELSZ
    ensures |lab| <= MAXLABELSZ ==> CutLabel(lab) == lab
  {}

  /** Normalising only ever shortens a name, except a well-formed one. */
  lemma {:induction false} NormalShortens(s: Text)
    ensures |Dotted(Tokens(s))| <= |s| + 1
    ensures |Dotted(Tokens(s))| == |s| + 1 <==> Hostname(s)
    ensures Hostname(s) ==> Dotted(Tokens(s)) == s + [DOT]
    decreases |s|
  {
    hide Tokens, Dotted, CutLabel, Hostname, Run;
    HostnameStep(s);
    if s == [] {
      TokensNone();
    } else if s[0] == DOT {
      DotToken(s);
      NormalShortens(s[1..]);
    } else {
      FirstToken(s);
      var n := Run(s);
      Cutting(s[..n]);
      if n == |s| {
        assert s[..n] == s;
      } else {
        NormalShortens(s[n + 1..]);
        assert s == s[..n] + [DOT] + s[n + 1..];
      }
    }
  }

  lemma DotToken(s: Text)
    requires s != [] && s[0] == DOT
    ensures Tokens(s) == Tokens(s[1..]) && Run(s) == 0
  {}

  lemma HostnameStep(s: Text)
    ensures s == [] ==> !Hostname(s)
    ensures Hostname(s) <==> 1 <= Run(s) <= MAXLABELSZ && (Run(s) == |s| || Hostname(s[Run(s) + 1..]))
  {}

  lemma {:induction false} TokensTrim(s: Text)
    ensures Tokens(Trim(s)) == Tokens(s)
  {
    if s != [] && s[|s| - 1] == DOT {
      TokensTrim(s[..|s| - 1]);
      assert s == s[..|s| - 1] + [DOT];
      TokensDot(s[..|s| - 1]);
    }
  }

  lemma {:induction false} TokensDot(s: Text)
    ensures Tokens(s + [DOT]) == Tokens(s)
    decreases |s|
  {
    var t := s + [DOT];
    if s == [] {
      assert t[1..] == [];
    } else if s[0] == DOT {
      assert t[1..] == s[1..] + [DOT];
      TokensDot(s[1..]);
    } else {
      RunDot(s);
      var n := Run(s);
      assert t[..n] == s[..n] && t[n..] == s[n..] + [DOT];
      TokensDot(s[n..]);
    }
  }

  lemma {:induction false} RunDot(s: Text)
    ensures Run(s + [DOT]) == Run(s)
  {
    if s != [] && s[0] != DOT {
      assert (s + [DOT])[1..] == s[1..] + [DOT];
      RunDot(s[1..]);
    }
  }

  /** What the sender recorded and what a receiver unpacks are the same query. */
  ghost predicate ComesBack(hostname: Text, qid: uint16) {
    var r := UnpackQuery(AQuery(hostname, qid), 12);
    r.Some? && SameQuery(r.value.0, Recorded(hostname))
  }

  lemma NormalEnds(hostname: Text)
    ensures var n := Normal(hostname); Trim(n) == n
    ensures Normal(hostname) == [] <==> Tokens(hostname) == []
    ensures |Normal(hostname)| == if Tokens(hostname) == [] then 0 else |Dotted(Tokens(hostname))| - 1
  {
    TokensAreLabels(hostname);
    DottedEmpty(Tokens(hostname));
    DottedLast(Tokens(hostname));
  }

  lemma {:induction false} DottedLast(ls: seq<Text>)
    requires Labels(ls) && NoDots(ls)
    ensures ls != [] ==> |Dotted(ls)| >= 2 && Dotted(ls)[|Dotted(ls)| - 2] != DOT
  {
    if |ls| == 1 {
      var c := CutLabel(ls[0]);
      assert Dotted(ls) == c + [DOT] + [] && c[|c| - 1] in ls[0];
    } else if ls != [] {
      DottedLast(ls[1..]);
      var d := Dotted(ls[1..]);
      assert Dotted(ls)[|Dotted(ls)| - 2] == d[|d| - 2];
    }
  }

  /** The exact condition for any hostname, in terms of the first 255 octets that were recorded. */
  lemma ComesBackIff(hostname: Text, qid: uint16)
    ensures ComesBack(hostname, qid) <==>
              |Normal(hostname)| <= 254 && Caseless(Trim(Recorded(hostname).name), Normal(hostname))
  {
    hide UnpackQuery, AQuery, Normal, Trim;
    QuestionUnpacks(hostname, qid);
    NormalEnds(hostname);
    var n, q := Normal(hostname), Recorded(hostname).name;
    WholeTrim(q);
    if |n| <= 254 && |n| == |q| && Caseless(n, q) && q != [] {
      LastNotDot(n);
      assert Lower(n[|n| - 1]) == Lower(q[|n| - 1]);
    }
  }

  lemma WholeTrim(q: Text)
    ensures |Trim(q)| == |q| <==> q == [] || q[|q| - 1] != DOT
    ensures |Trim(q)| == |q| ==> Trim(q) == q
  {}

  lemma LastNotDot(n: Text)
    requires Trim(n) == n && n != []
    ensures n[|n| - 1] != DOT
  {}

  /** A hostname that fits the record comes back equal exactly when it is well formed up to trailing dots. */
  lemma WellFormedComesBack(hostname: Text, qid: uint16)
    requires |hostname| <= 255
    ensures var t := Trim(hostname); ComesBack(hostname, qid) <==> (t == [] || Hostname(t)) && |t| <= 254
  {
    hide ComesBack, Hostname, Dotted, Tokens;
    var t := Trim(hostname);
    ComesBackIff(hostname, qid);
    TokensTrim(hostname);
    NormalShortens(t);
    NormalEnds(hostname);
    TokensNone();
    if Hostname(t) { assert Normal(hostname) == t; }
  }

  lemma TokensNone()
    ensures Tokens([]) == [] && Dotted([]) == []
  {}
}
