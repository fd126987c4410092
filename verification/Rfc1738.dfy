/** lib/rfc1738.c: escaping into a buffer that is kept between calls, and unescaping in place. */
module Rfc1738 {
  import opened Buffers

  type Text = seq<byte>

  const PERCENT: byte := 37

  /** The unsafe characters, all but the percent sign. */
  const UNSAFE: seq<byte> := [0x3C, 0x3E, 0x22, 0x23, 0x7B, 0x7D, 0x7C, 0x5C, 0x5E, 0x7E, 0x5B, 0x5D, 0x60, 0x27, 0x20]
  const RESERVED: seq<byte> := [0x3B, 0x2F, 0x3F, 0x3A, 0x40, 0x3D, 0x26]

  /** What is escaped: mode 0 for a URL, 1 for a part of one, -1 for a URL that may be escaped already. */
  predicate Escaped(c: byte, mode: int) {
    || c in UNSAFE
    || (mode >= 0 && c == PERCENT)
    || (mode > 0 && c in RESERVED)
    || c <= 0x1F || c == 0x7F || c >= 0x80
  }

  function HexDigit(v: int): byte
    requires 0 <= v < 16
  {
    if v < 10 then 48 + v else 55 + v
  }

  /** fromhex. */
  function FromHex(ch: byte): int {
    if 48 <= ch <= 57 then ch - 48
    else if 97 <= ch <= 102 then ch - 87
    else if 65 <= ch <= 70 then ch - 55
    else -1
  }

  function EscapeOne(c: byte, mode: int): Text {
    if Escaped(c, mode) then [PERCENT, HexDigit(c / 16), HexDigit(c % 16)] else [c]
  }

  function Escape(s: Text, mode: int): Text {
    if s == [] then [] else EscapeOne(s[0], mode) + Escape(s[1..], mode)
  }

  function At(s: Text, i: nat): byte {
    if i < |s| then s[i] else 0
  }

  /** How many characters one step of unescaping reads, and what it writes. */
  function Reads(s: Text): (n: nat)
    requires s != []
    ensures 1 <= n <= |s|
  {
    if s[0] != PERCENT then 1
    else if At(s, 1) == PERCENT then 2
    else if FromHex(At(s, 1)) < 0 || FromHex(At(s, 2)) < 0 then 1
    else if FromHex(At(s, 1)) * 16 + FromHex(At(s, 2)) > 0 then 3
    else 1
  }

  function Writes(s: Text): byte
    requires s != []
  {
    if Reads(s) == 3 then FromHex(At(s, 1)) * 16 + FromHex(At(s, 2)) else s[0]
  }

  /** What rfc1738_unescape makes of a string. */
  function Unescape(s: Text): Text
    decreases |s|
  {
    if s == [] then [] else [Writes(s)] + Unescape(s[Reads(s)..])
  }

  // ---------------------------------------------------------------- laws

  lemma HexRoundTrip(v: int)
    requires 0 <= v < 16
    ensures FromHex(HexDigit(v)) == v && HexDigit(v) != PERCENT && !Escaped(HexDigit(v), -1)
  {}

  lemma OneBack(c: byte, mode: int, rest: Text)
    requires c != 0 && mode >= 0
    ensures var s := EscapeOne(c, mode) + rest; Reads(s) == |EscapeOne(c, mode)| && Writes(s) == c
  {
    HexRoundTrip(c / 16);
    HexRoundTrip(c % 16);
    hide FromHex, HexDigit;
    var s := EscapeOne(c, mode) + rest;
    if Escaped(c, mode) {
      assert s[1] == HexDigit(c / 16) && s[2] == HexDigit(c % 16);
    }
  }

  /** Unescaping undoes both kinds of escaping on every string. */
  lemma {:induction false} UnescapeUndoes(s: Text, mode: int)
    requires mode >= 0 && 0 !in s
    ensures Unescape(Escape(s, mode)) == s
  {
    if s != [] {
      hide EscapeOne, Reads, Writes;
      var e, rest := EscapeOne(s[0], mode), Escape(s[1..], mode);
      UnescapeUndoes(s[1..], mode);
      OneBack(s[0], mode, rest);
      assert (e + rest)[|e|..] == rest;
    }
  }

  /** Nothing in an escaped string needs escaping again, percent signs apart. */
  lemma {:induction false} EscapedIsSafe(s: Text, mode: int, i: nat)
    requires i < |Escape(s, mode)|
    ensures !Escaped(Escape(s, mode)[i], -1)
    decreases |s|
  {
    var e := EscapeOne(s[0], mode);
    if i < |e| {
      HexRoundTrip(s[0] / 16);
      HexRoundTrip(s[0] % 16);
      hide HexDigit;
      assert Escape(s, mode)[i] == e[i];
    } else {
      EscapedIsSafe(s[1..], mode, i - |e|);
    }
  }

  lemma {:induction false} SafeStays(s: Text, mode: int)
    requires forall i :: 0 <= i < |s| ==> !Escaped(s[i], mode)
    ensures Escape(s, mode) == s
  {
    if s != [] { SafeStays(s[1..], mode); }
  }

  /** Escaping what may be escaped already is idempotent. */
  lemma EscapeUnescapedIdempotent(s: Text)
    ensures Escape(Escape(s, -1), -1) == Escape(s, -1)
  {
    forall i | 0 <= i < |Escape(s, -1)| ensures !Escaped(Escape(s, -1)[i], -1) {
      EscapedIsSafe(s, -1, i);
    }
    SafeStays(Escape(s, -1), -1);
  }

  lemma {:induction false} AtMostTriple(s: Text, mode: int)
    ensures |Escape(s, mode)| <= 3 * |s|
  {
    if s != [] { AtMostTriple(s[1..], mode); }
  }

  // ---------------------------------------------------------------- characters

  const LOWER := "0123456789abcdef"
  const UPPER := "0123456789ABCDEF"

  /** The octet d is a hexadecimal digit, in either spelling, of value v. */
  predicate Spells(d: byte, v: nat) {
    v < 16 && (d == LOWER[v] as int || d == UPPER[v] as int)
  }

  lemma DigitIs(d: byte, v: nat)
    requires Spells(d, v)
    ensures FromHex(d) == v && d != PERCENT && d != 0
  {}

  lemma DigitSpells(d: byte)
    ensures FromHex(d) >= 0 ==> FromHex(d) < 16 && Spells(d, FromHex(d))
  {
    var v := FromHex(d);
    if v >= 0 {
      assert 0 <= v < 10 ==> LOWER[v] as int == 48 + v;
      assert 10 <= v < 16 ==> LOWER[v] as int == 87 + v && UPPER[v] as int == 55 + v;
    }
  }

  /** A percent sign and two digits in any spelling stand for the octet they spell. */
  lemma UnescapeSpelled(c: byte, d1: byte, d2: byte, rest: Text)
    requires c > 0 && Spells(d1, c / 16) && Spells(d2, c % 16)
    ensures Unescape([0x25, d1, d2] + rest) == [c] + Unescape(rest)
  {
    DigitIs(d1, c / 16);
    DigitIs(d2, c % 16);
    hide FromHex;
    var s := [0x25, d1, d2] + rest;
    assert s[1] == d1 && s[2] == d2 && s[3..] == rest;
  }

  /** The string goes on with two digits that spell an octet other than 0. */
  ghost predicate Spelled(s: Text) {
    |s| >= 2 && exists v, w :: Spells(s[0], v) && Spells(s[1], w) && (v > 0 || w > 0)
  }

  /** Two percent signs stand for one; any other, and every other character, stays. */
  lemma UnescapeStays(c: byte, rest: Text)
    ensures c == 0x25 && rest != [] && rest[0] == 0x25 ==> Unescape([c] + rest) == [0x25] + Unescape(rest[1..])
    ensures c != 0x25 || !(rest != [] && (rest[0] == 0x25 || Spelled(rest))) ==> Unescape([c] + rest) == [c] + Unescape(rest)
  {
    var s := [c] + rest;
    assert s[1..] == rest && At(s, 1) == At(rest, 0) && At(s, 2) == At(rest, 1);
    if c == 0x25 && rest != [] && rest[0] == 0x25 {
      assert s[2..] == rest[1..];
    } else if c == 0x25 && rest != [] && !Spelled(rest) {
      DigitSpells(rest[0]);
      if |rest| > 1 { DigitSpells(rest[1]); }
      NotSpelled(s, rest);
    }
  }

  lemma NotSpelled(s: Text, rest: Text)
    requires s == [0x25] + rest && rest != [] && rest[0] != 0x25 && !Spelled(rest)
    ensures Reads(s) == 1 && Writes(s) == 0x25
  {
    var x, y := FromHex(At(s, 1)), FromHex(At(s, 2));
    DigitSpells(rest[0]);
    if |rest| > 1 { DigitSpells(rest[1]); }
    hide Spells;
    assert FromHex(0) < 0;
    if x >= 0 && y >= 0 {
      assert |rest| > 1 && Spells(rest[0], x) && Spells(rest[1], y);
      hide FromHex;
      assert x == 0 && y == 0;
    }
  }

  /** The characters that each mode escapes; RFC 1738 calls the first line unsafe and the second reserved. */
  lemma EscapedAre(c: byte, mode: int)
    ensures Escaped(c, mode) <==>
              || c < 0x20 || c > 0x7E || c as char in " <>\"#{}|\\^~[]`'"
              || (mode >= 0 && c as char == '%')
              || (mode > 0 && c as char in ";/?:@=&")
  {}

  /** Such a character becomes a percent sign and two upper-case digits, any other itself. */
  lemma EscapeSpells(c: byte, rest: Text, mode: int)
    ensures Escape([c] + rest, mode) ==
              (if Escaped(c, mode) then [0x25, UPPER[c / 16] as int, UPPER[c % 16] as int] else [c]) + Escape(rest, mode)
  {
    hide Escaped;
    UpperDigit(c / 16);
    UpperDigit(c % 16);
    assert ([c] + rest)[1..] == rest;
  }

  lemma UpperDigit(v: nat)
    requires v < 16
    ensures HexDigit(v) == UPPER[v] as int
  {}

  // ---------------------------------------------------------------- code

  /** The static buffer of rfc1738_do_escape. */
  class Escaper {
    var buf: array?<byte>
    var bufsize: nat

    /** Every size ever allocated is one more than a multiple of three. */
    ghost predicate Valid()
      reads this
    {
      buf != null ==> buf.Length == bufsize && bufsize % 3 == 1
    }

    constructor ()
      ensures Valid() && buf == null && bufsize == 0
    {
      buf, bufsize := null, 0;
    }

    /** rfc1738_do_escape; every write is inside the buffer, new or reused. */
    method DoEscape(url: Text, mode: int) returns (len: nat)
      requires Valid()
      modifies this, if buf == null then {} else {buf}
      ensures Valid() && buf != null
      ensures if old(buf) != null && 3 * |url| <= old(bufsize) then buf == old(buf) && bufsize == old(bufsize)
              else fresh(buf) && bufsize == 3 * |url| + 1
      ensures len == |Escape(url, mode)| < buf.Length && buf[..len] == Escape(url, mode) && buf[len] == 0
      ensures len <= 3 * |url|
    {
      AtMostTriple(url, mode);
      hide Escape;
      StillFits(|url|, bufsize);
      if buf == null || |url| * 3 > bufsize {
        bufsize := |url| * 3 + 1;
        buf := new byte[bufsize](_ => 0);
      }
      len := Fill(buf, url, mode);
    }

    /** The same call when the URL is the n characters in the static buffer itself, as an earlier call returned it. */
    method EscapeOwn(n: nat, mode: int) returns (r: Aliased)
      requires Valid() && buf != null && n < buf.Length && buf[n] == 0 && forall k :: 0 <= k < n ==> buf[k] != 0
      modifies buf
      ensures r.Freed? <==> 3 * n > bufsize
      ensures r.Done? <==> 3 * n <= bufsize && forall k :: 0 <= k < n ==> !Escaped(old(buf[k]), mode)
      ensures r.Done? ==> buf[..] == old(buf[..]) && Escape(old(buf[..n]), mode) == buf[..n]
    {
      if n * 3 > bufsize { return Freed; }
      r := Refill(buf, n, mode);
      if r.Done? {
        assert buf[..] == old(buf[..]);
        SafeStays(buf[..n], mode);
      }
    }
  }

  /** Freed: the buffer is freed, and then read. Overrun: the loop never meets the terminator and writes past the end. */
  datatype Aliased = Freed | Overrun | Done

  lemma HexNotNull(v: int)
    requires 0 <= v < 16
    ensures HexDigit(v) != 0
  {}

  /** The loop reading and writing one buffer: once a character has been escaped, what is written keeps ahead of what is read. */
  method Refill(b: array<byte>, n: nat, mode: int) returns (r: Aliased)
    requires n < b.Length && b[n] == 0 && forall k :: 0 <= k < n ==> b[k] != 0
    modifies b
    ensures !r.Freed?
    ensures r.Done? <==> forall k :: 0 <= k < n ==> !Escaped(old(b[k]), mode)
    ensures r.Done? ==> b[..] == old(b[..])
  {
    hide HexDigit, Escaped;
    var p, q := 0, 0;
    while b[p] != 0
      invariant 0 <= p <= q < b.Length
      invariant p == q ==> p <= n && b[..] == old(b[..]) && forall k :: 0 <= k < p ==> !Escaped(b[k], mode)
      invariant p < q ==> p + 2 <= q && (forall k :: p <= k < q ==> b[k] != 0) && exists k :: 0 <= k < n && Escaped(old(b[k]), mode)
      decreases b.Length - q
    {
      var c := b[p];
      if Escaped(c, mode) {
        assert p == q ==> Escaped(old(b[p]), mode);
        if b.Length <= q + 3 { return Overrun; }
        HexNotNull(c / 16);
        HexNotNull(c % 16);
        b[q] := PERCENT;
        b[q + 1] := HexDigit(c / 16);
        b[q + 2] := HexDigit(c % 16);
        b[q + 3] := 0;
        q := q + 3;
      } else {
        b[q] := c;
        q := q + 1;
        if b.Length <= q { return Overrun; }
      }
      p := p + 1;
    }
    b[q] := 0;
    r := Done;
  }

  /** A buffer that is large enough for the characters has room for the terminator too. */
  lemma StillFits(n: nat, size: nat)
    ensures size % 3 == 1 && 3 * n <= size ==> 3 * n + 1 <= size
    ensures (3 * n + 1) % 3 == 1
  {}

  /** The loop over the characters; sprintf writes its terminator too. */
  method Fill(b: array<byte>, url: Text, mode: int) returns (q: nat)
    requires 3 * |url| + 1 <= b.Length
    modifies b
    ensures q == |Escape(url, mode)| < b.Length && b[..q] == Escape(url, mode) && b[q] == 0
  {
    hide Escaped, HexDigit;
    q := 0;
    var p := 0;
    assert url[0..] == url;
    while p < |url|
      invariant 0 <= p <= |url| && q <= 3 * p
      invariant b[..q] + Escape(url[p..], mode) == Escape(url, mode)
    {
      var c := url[p];
      ghost var before := b[..q];
      assert url[p..][1..] == url[p + 1..];
      assert Escape(url[p..], mode) == EscapeOne(c, mode) + Escape(url[p + 1..], mode);
      if Escaped(c, mode) {
        b[q] := PERCENT;
        b[q + 1] := HexDigit(c / 16);
        b[q + 2] := HexDigit(c % 16);
        b[q + 3] := 0;
        q := q + 3;
      } else {
        b[q] := c;
        q := q + 1;
      }
      assert b[..q] == before + EscapeOne(c, mode);
      Regroup(before, EscapeOne(c, mode), Escape(url[p + 1..], mode));
      p := p + 1;
    }
    assert url[|url|..] == [];
    b[q] := 0;
    assert b[..q] + [] == b[..q];
  }

  /** The body of the loop at j: the character to write, and how many have been read. */
  method Decode(s: array<byte>, j: nat, n: nat) returns (x: byte, step: nat)
    requires j < n < s.Length && s[n] == 0
    ensures x == Writes(s[j..n]) && step == Reads(s[j..n])
  {
    hide FromHex;
    ghost var rest := s[j..n];
    x, step := s[j], 1;
    NotHexEnd();
    if s[j] != PERCENT { return; }
    assert At(rest, 1) == s[j + 1];
    if s[j + 1] == PERCENT { return x, 2; }
    var v1 := FromHex(s[j + 1]);
    if v1 < 0 { return; }
    assert At(rest, 2) == s[j + 2];
    var v2 := FromHex(s[j + 2]);
    if v2 < 0 { return; }
    HexRange(s[j + 1]);
    HexRange(s[j + 2]);
    if 0 < v1 * 16 + v2 <= 255 { return v1 * 16 + v2, 3; }
  }

  lemma UnescapeStep(s: Text, j: nat)
    requires j < |s|
    ensures Unescape(s[j..]) == [Writes(s[j..])] + Unescape(s[j + Reads(s[j..])..])
  {
    assert s[j..][Reads(s[j..])..] == s[j + Reads(s[j..])..];
  }

  /** rfc1738_unescape in place, on a string of n characters and its terminator. */
  method UnescapeInPlace(s: array<byte>, n: nat) returns (i: nat)
    requires n < s.Length && s[n] == 0 && forall k :: 0 <= k < n ==> s[k] != 0
    modifies s
    ensures i <= n && s[..i] == Unescape(old(s[..n])) && s[i] == 0
  {
    hide Unescape, Reads, Writes;
    ghost var src := s[..n];
    i := 0;
    var j := 0;
    assert src[0..] == src;
    while s[j] != 0
      invariant 0 <= i <= j <= n && forall k :: j <= k <= n ==> s[k] == old(s[k])
      invariant s[..i] + Unescape(src[j..]) == Unescape(src)
      decreases n - j
    {
      var x, step := Decode(s, j, n);
      assert s[j..n] == src[j..];
      UnescapeStep(src, j);
      ghost var before := s[..i];
      s[i] := x;
      assert s[..i + 1] == before + [x];
      Regroup(before, [x], Unescape(src[j + step..]));
      i, j := i + 1, j + step;
    }
    UnescapeEnd(src);
    s[i] := 0;
  }

  lemma UnescapeEnd(s: Text)
    ensures Unescape(s[|s|..]) == []
  {}

  lemma NotHexEnd()
    ensures FromHex(0) == -1
  {}

  lemma HexRange(ch: byte)
    ensures -1 <= FromHex(ch) < 16
  {}
}
