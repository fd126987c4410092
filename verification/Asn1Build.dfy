/**
 The builders of snmplib/asn1.c, which write into a packet buffer at a position and keep count of
 the octets left. Words are natural numbers below 2^32; a left shift is cut to 32 bits.
 */
module Asn1Build {
  import opened Buffers
  import opened Powers
  import opened Asn1
  import opened Asn1Oid
  import opened Bits

  /**
   The contract of every builder: it succeeds exactly when enc fits in the octets left; then enc
   stands at pos, nothing else has changed, and octets written plus octets left are conserved.
   */
  ghost predicate Built(a: seq<byte>, b: seq<byte>, pos: nat, left: nat, enc: seq<byte>, ok: bool, p: nat, l: nat) {
    && Kept(a, b, pos, left)
    && (ok <==> |enc| <= left)
    && (ok ==> p == pos + |enc| && l == left - |enc| && HasAt(b, pos, enc) && Kept(a, b, pos, |enc|))
  }

  lemma BuiltBoth(a: seq<byte>, b: seq<byte>, c: seq<byte>, pos: nat, left: nat, e: seq<byte>, f: seq<byte>,
                  p: nat, l: nat, ok: bool, q: nat, m: nat)
    requires Built(a, b, pos, left, e, true, p, l) && Built(b, c, p, l, f, ok, q, m)
    ensures Built(a, c, pos, left, e + f, ok, q, m)
  {
    if ok {
      forall i | pos <= i < pos + |e| ensures c[i] == e[i - pos] {
        assert b[i] == b[pos..pos + |e|][i - pos];
      }
      assert c[pos..pos + |e|] == e;
      HasParts(c, pos, e, f);
    }
  }

  lemma BuiltFirst(a: seq<byte>, b: seq<byte>, pos: nat, left: nat, e: seq<byte>, f: seq<byte>, p: nat, l: nat)
    requires Built(a, b, pos, left, e, false, p, l)
    ensures Built(a, b, pos, left, e + f, false, p, l)
  {}

  // ---------------------------------------------------------------- headers

  method BuildLength(buf: array<byte>, pos: nat, left: nat, n: nat, truth: bool) returns (ok: bool, p: nat, l: nat)
    requires pos + left <= buf.Length || pos + |EncLength(n, truth)| <= buf.Length
    modifies buf
    ensures Built(old(buf[..]), buf[..], pos, left, EncLength(n, truth), ok, p, l)
  {
    p, l := pos, left;
    if truth && n < 0x80 {
      if left < 1 { return false, p, l; }
      buf[p] := n;
      p := p + 1;
    } else if truth && n <= 0xFF {
      if left < 2 { return false, p, l; }
      buf[p] := 0x81;
      buf[p + 1] := n;
      p := p + 2;
    } else {
      if left < 3 { return false, p, l; }
      buf[p] := 0x82;
      buf[p + 1] := n / 256 % 256;
      buf[p + 2] := n % 256;
      p := p + 3;
    }
    assert buf[..][pos..p] == EncLength(n, truth);
    l := left - (p - pos);
    ok := true;
  }

  method BuildHeader(buf: array<byte>, pos: nat, left: nat, typ: byte, n: nat, truth: bool) returns (ok: bool, p: nat, l: nat)
    requires pos + left <= buf.Length || pos + |EncHeader(typ, n, truth)| <= buf.Length
    modifies buf
    ensures Built(old(buf[..]), buf[..], pos, left, EncHeader(typ, n, truth), ok, p, l)
  {
    hide EncLength;
    if left < 1 { return false, pos, left; }
    ghost var before := buf[..];
    buf[pos] := typ;
    ghost var between := buf[..];
    assert between[pos..pos + 1] == [typ];
    ok, p, l := BuildLength(buf, pos + 1, left - 1, n, truth);
    BuiltBoth(before, between, buf[..], pos, left, [typ], EncLength(n, truth), pos + 1, left - 1, ok, p, l);
  }

  /** xmemcpy of the contents once the header is in place. */
  method CopyIn(buf: array<byte>, pos: nat, left: nat, s: seq<byte>) returns (ok: bool, p: nat, l: nat)
    requires pos + left <= buf.Length
    modifies buf
    ensures Built(old(buf[..]), buf[..], pos, left, s, ok, p, l)
  {
    if left < |s| { return false, pos, left; }
    forall i | 0 <= i < |s| { buf[pos + i] := s[i]; }
    assert buf[..][pos..pos + |s|] == s;
    return true, pos + |s|, left - |s|;
  }

  method BuildString(buf: array<byte>, pos: nat, left: nat, typ: byte, s: seq<byte>) returns (ok: bool, p: nat, l: nat)
    requires pos + left <= buf.Length
    modifies buf
    ensures Built(old(buf[..]), buf[..], pos, left, EncString(typ, s), ok, p, l)
  {
    ghost var before := buf[..];
    ok, p, l := BuildHeader(buf, pos, left, typ, |s|, true);
    ghost var between, q, m := buf[..], p, l;
    if !ok {
      BuiltFirst(before, between, pos, left, EncHeader(typ, |s|, true), s, p, l);
      return;
    }
    ok, p, l := CopyIn(buf, p, l, s);
    BuiltBoth(before, between, buf[..], pos, left, EncHeader(typ, |s|, true), s, q, m, ok, p, l);
  }

  // ---------------------------------------------------------------- integers

  function Shl8(u: nat): uint32 {
    u * 256 % 0x1_0000_0000
  }

  const TOP9: uint32 := 0xFF80_0000
  const TOP8: uint32 := 0xFF00_0000

  lemma TopNine(u: uint32)
    ensures And(u, TOP9) == u / 0x80_0000 * 0x80_0000
  {
    hide And, Pow2;
    Pow2Values();
    AndMask(u, 9, 23, 512, 0x80_0000);
  }

  lemma TopEight(u: uint32)
    ensures And(u, TOP8) == u / 0x100_0000 * 0x100_0000
  {
    hide And, Pow2;
    Pow2Values();
    AndMask(u, 8, 24, 256, 0x100_0000);
  }

  /** The word of v after the octets above the lowest k have been shifted out. */
  function Word(v: int, k: nat): uint32
    requires k <= 4
  {
    Wrap(v * Pow256(4 - k))
  }

  lemma WordStep(v: int, k: nat)
    requires 0 < k <= 4
    ensures Shl8(Word(v, k)) == Word(v, k - 1)
  {
    assert Pow256(5 - k) == 256 * Pow256(4 - k);
    ShiftWrapped(v * Pow256(4 - k));
    assert v * Pow256(5 - k) == v * Pow256(4 - k) * 256;
  }

  lemma ShiftWrapped(x: int)
    ensures Shl8(Wrap(x)) == Wrap(x * 256)
  {
    Multiple(Wrap(x) * 256, x / 0x1_0000_0000 * 256);
  }

  lemma Multiple(y: int, k: int)
    ensures (y + 0x1_0000_0000 * k) % 0x1_0000_0000 == y % 0x1_0000_0000
  {}

  lemma NineBits(x: int32)
    ensures And(Wrap(x), TOP9) == 0 <==> 0 <= x < 0x80_0000
    ensures And(Wrap(x), TOP9) == TOP9 <==> -0x80_0000 <= x < 0
  {
    hide And;
    TopNine(Wrap(x));
    if x < 0 { Multiple(x, 1); }
  }

  /** The nine top bits are equal exactly when one octet fewer will do. */
  lemma TopBits(v: int, k: nat)
    requires 2 <= k <= 4 && Fits(v, k)
    ensures And(Word(v, k), TOP9) == 0 <==> 0 <= v && Fits(v, k - 1)
    ensures And(Word(v, k), TOP9) == TOP9 <==> v < 0 && Fits(v, k - 1)
  {
    hide And, Pow256, Wrap;
    Pow256Values();
    if k == 4 { NineBits(v); }
    if k == 3 { NineBits(v * 256); }
    if k == 2 { NineBits(v * 0x1_0000); }
  }

  /** The octets a loop emits that takes the top octet and shifts. */
  function TopOctets(u: uint32, n: nat): (s: seq<byte>)
    ensures |s| == n
    decreases n
  {
    if n == 0 then [] else [u / 0x100_0000] + TopOctets(Shl8(u), n - 1)
  }

  lemma {:induction false} OctetsFront(v: int, n: nat)
    ensures Octets(v, n + 1) == [v / Pow256(n) % 256] + Octets(v, n)
    decreases n
  {
    if n > 0 {
      OctetsFront(v / 256, n - 1);
      DivDiv(v, Pow256(n - 1));
    } else {
      assert Octets(v / 256, 0) == [];
    }
  }

  lemma DivDiv(v: int, p: int)
    requires p > 0
    ensures v / 256 / p == v / (256 * p)
  {
    var q, r := v / 256 / p, v / 256 % p;
    assert v / 256 == p * q + r;
    assert v == (256 * p) * q + (256 * r + v % 256);
    Quotient(v, 256 * p, q, 256 * r + v % 256);
  }

  lemma Quotient(x: int, d: int, q: int, r: int)
    requires d > 0 && x == d * q + r && 0 <= r < d
    ensures x / d == q
  {
    var a, b := x / d, x % d;
    assert x == d * a + b && 0 <= b < d;
    assert d * (q - a) == b - r;
    if q > a { Larger(d, q - a); }
    if q < a { Larger(d, a - q); }
  }

  lemma TopOctet(v: int, n: nat)
    requires 0 < n <= 4
    ensures Word(v, n) / 0x100_0000 == v / Pow256(n - 1) % 256
  {
    Pow256Values();
    hide Pow256;
    if n == 4 { CutWord(v, 0x100_0000, 1); }
    if n == 3 { CutWord(v, 0x1_0000, 256); }
    if n == 2 { CutWord(v, 256, 0x1_0000); }
    if n == 1 { CutWord(v, 1, 0x100_0000); }
  }

  lemma CutWord(v: int, a: int, c: int)
    requires a > 0 && c > 0 && a * c == 0x100_0000
    ensures Wrap(v * c) / 0x100_0000 == v / a % 256
  {
    var (q, lo) := Divide(v, a);
    hide Divide, Wrap;
    Times(lo, a - 1, c);
    Times(0, lo, c);
    Spread(a, c, q, lo);
    CutAt(v * c, q, lo * c);
  }

  function Divide(v: int, a: int): (r: (int, int))
    requires a > 0
    ensures v == a * r.0 + r.1 && 0 <= r.1 <= a - 1 && r.0 == v / a
  {
    (v / a, v % a)
  }

  lemma CutAt(x: int, q: int, rest: int)
    requires x == 0x100_0000 * q + rest && 0 <= rest < 0x100_0000
    ensures Wrap(x) / 0x100_0000 == q % 256
  {
    var w := 0x100_0000 * (q % 256) + rest;
    Multiple(w, q / 256);
    assert x == w + 0x1_0000_0000 * (q / 256);
    assert 0 <= w < 0x1_0000_0000;
  }

  lemma Spread(a: int, c: int, x: int, lo: int)
    ensures (a * x + lo) * c == a * c * x + lo * c
  {}

  lemma Times(x: int, y: int, c: int)
    requires x <= y && c >= 0
    ensures x * c <= y * c
  {}

  lemma {:induction false} TopOctetsAre(v: int, n: nat)
    requires n <= 4
    ensures TopOctets(Word(v, n), n) == Octets(v, n)
  {
    if n > 0 {
      WordStep(v, n);
      TopOctetsAre(v, n - 1);
      OctetsFront(v, n - 1);
      TopOctet(v, n);
    }
  }

  lemma TopOctetsStep(u: uint32, n: nat)
    requires n > 0
    ensures TopOctets(u, n) == [u / 0x100_0000] + TopOctets(Shl8(u), n - 1)
  {}

  /** The emitting loop of both integer builders. */
  method EmitWord(buf: array<byte>, pos: nat, u: uint32, n: nat) returns (p: nat)
    requires pos + n <= buf.Length
    modifies buf
    ensures p == pos + n && HasAt(buf[..], pos, TopOctets(u, n)) && Kept(old(buf[..]), buf[..], pos, n)
  {
    hide And, TopOctets;
    p := pos;
    var integer, size: nat := u, n;
    ghost var done: seq<byte> := [];
    while size > 0
      invariant 0 <= size <= n && p == pos + n - size == pos + |done|
      invariant TopOctets(u, n) == done + TopOctets(integer, size)
      invariant buf[..][pos..p] == done
      invariant Kept(old(buf[..]), buf[..], pos, n)
    {
      TopOctetsStep(integer, size);
      size := size - 1;
      TopEight(integer);
      buf[p] := And(integer, TOP8) / 0x100_0000;
      done := done + [buf[p]];
      p := p + 1;
      integer := Shl8(integer);
    }
  }

  lemma MinLenIs(v: int, n: nat)
    requires 1 <= n <= 5 && Fits(v, n) && (n == 1 || !Fits(v, n - 1))
    ensures n == MinLen(v)
  {
    Pow256Values();
  }

  /** Header and contents of a number of known size, with a leading null octet if asked for. */
  method BuildContent(buf: array<byte>, pos: nat, left: nat, typ: byte, v: int, u: uint32, size: nat, addNull: bool)
    returns (ok: bool, p: nat, l: nat)
    requires pos + left <= buf.Length
    requires size == MinLen(v) && 0 < size <= 5
    requires Octets(v, size) == if addNull then [0] + TopOctets(u, size - 1) else TopOctets(u, size)
    modifies buf
    ensures Built(old(buf[..]), buf[..], pos, left, EncInt(typ, v), ok, p, l)
  {
    hide TopOctets, Octets, MinLen, EncHeader;
    ghost var before := buf[..];
    ok, p, l := BuildHeader(buf, pos, left, typ, size, true);
    ghost var between, q, m := buf[..], p, l;
    if !ok {
      BuiltFirst(before, between, pos, left, EncHeader(typ, size, true), Octets(v, size), p, l);
      return;
    }
    if l < size {
      BuiltBoth(before, between, buf[..], pos, left, EncHeader(typ, size, true), Octets(v, size), p, l, false, p, l);
      return false, p, l;
    }
    l := l - size;
    if addNull {
      buf[p] := 0;
      assert HasAt(buf[..], q, [0]);
      ghost var zero := buf[..];
      p := EmitWord(buf, p + 1, u, size - 1);
      assert HasAt(buf[..], q, [0]) by { assert buf[q] == 0; }
      HasParts(buf[..], q, [0], TopOctets(u, size - 1));
    } else {
      p := EmitWord(buf, p, u, size);
    }
    BuiltBoth(before, between, buf[..], pos, left, EncHeader(typ, size, true), Octets(v, size), q, m, ok, p, l);
  }

  method BuildInt(buf: array<byte>, pos: nat, left: nat, typ: byte, v: int32) returns (ok: bool, p: nat, l: nat)
    requires pos + left <= buf.Length
    modifies buf
    ensures Built(old(buf[..]), buf[..], pos, left, EncInt(typ, v), ok, p, l)
  {
    hide And, EncInt, TopOctets, Octets, Wrap, MinLen, Fits;
    var integer: uint32, size := Wrap(v), 4;
    FourFit(v);
    while (And(integer, TOP9) == 0 || And(integer, TOP9) == TOP9) && size > 1
      invariant 1 <= size <= 4 && integer == Word(v, size) && Fits(v, size)
      invariant buf[..] == old(buf[..])
    {
      TopBits(v, size);
      WordStep(v, size);
      size := size - 1;
      integer := Shl8(integer);
    }
    if size > 1 { TopBits(v, size); }
    MinLenIs(v, size);
    TopOctetsAre(v, size);
    ok, p, l := BuildContent(buf, pos, left, typ, v, integer, size, false);
  }

  lemma FourFit(v: int)
    requires -0x8000_0000 <= v < 0x8000_0000
    ensures Fits(v, 4) && Word(v, 4) == Wrap(v)
  {
    Pow256Values();
  }

  lemma TopBit(u: uint32)
    ensures And(u, 0x8000_0000) != 0 <==> u >= 0x8000_0000
    ensures u >= 0x8000_0000 ==> And(u, TOP9) != 0
  {
    hide And, Pow2;
    Pow2Values();
    AndMask(u, 1, 31, 2, 0x8000_0000);
    TopNine(u);
  }

  lemma LargeWord(u: uint32)
    requires u >= 0x8000_0000
    ensures MinLen(u) == 5 && Octets(u, 5) == [0] + Octets(u, 4) && Word(u, 4) == u
  {
    hide Octets;
    Pow256Values();
    OctetsFront(u, 4);
  }

  method BuildUnsigned(buf: array<byte>, pos: nat, left: nat, typ: byte, v: uint32) returns (ok: bool, p: nat, l: nat)
    requires pos + left <= buf.Length
    modifies buf
    ensures Built(old(buf[..]), buf[..], pos, left, EncInt(typ, v), ok, p, l)
  {
    hide And, EncInt, TopOctets, Octets, Wrap, MinLen, Fits;
    var integer: uint32, size, addNull := v, 4, false;
    TopBit(v);
    if And(integer, 0x8000_0000) != 0 {
      LargeWord(v);
      addNull := true;
      size := size + 1;
    } else {
      WrapSmall(v);
      FourFit(v);
    }
    while And(integer, TOP9) == 0 && size > 1
      invariant if addNull then size == 5 && integer == v >= 0x8000_0000
                else 1 <= size <= 4 && v < 0x8000_0000 && integer == Word(v, size) && Fits(v, size)
      invariant buf[..] == old(buf[..])
    {
      TopBits(v, size);
      WordStep(v, size);
      size := size - 1;
      integer := Shl8(integer);
    }
    if addNull {
      LargeWord(v);
      TopOctetsAre(v, 4);
    } else {
      if size > 1 { TopBits(v, size); }
      MinLenIs(v, size);
      TopOctetsAre(v, size);
    }
    ok, p, l := BuildContent(buf, pos, left, typ, v, integer, size, addNull);
  }

  // ---------------------------------------------------------------- object identifiers

  /** The mask of the t-th group of seven bits in a 32-bit word; past the last one it has been shifted out. */
  function MaskAt(t: nat): uint32 {
    if t == 0 then 0x7F else if t == 1 then 0x3F80 else if t == 2 then 0x1F_C000
    else if t == 3 then 0xFE0_0000 else if t == 4 then 0xF000_0000 else 0
  }

  function Pow128(t: nat): (p: int)
    ensures p > 0
  {
    if t == 0 then 1 else 128 * Pow128(t - 1)
  }

  lemma Pow128Values()
    ensures Pow128(0) == 1 && Pow128(1) == 128 && Pow128(2) == 0x4000 && Pow128(3) == 0x20_0000
    ensures Pow128(4) == 0x1000_0000 && Pow128(5) == 0x8_0000_0000
  {
    assert Pow128(3) == 128 * Pow128(2) && Pow128(5) == 128 * Pow128(4);
  }

  function Quo(n: nat, p: int): nat
    requires p > 0
  {
    n / p
  }

  /** The groups from t up, as a number. */
  function Above(n: uint32, t: nat): nat {
    Quo(n, Pow128(t))
  }

  lemma GroupMask(n: uint32, t: nat)
    requires t <= 4
    ensures And(n, MaskAt(t)) == (Above(n, t) % 128) * Pow128(t)
  {
    hide And, Pow2, Pow128;
    Pow2Values();
    Pow128Values();
    if t == 0 { AndMask(n, 7, 0, 128, 1); }
    if t == 1 { AndMask(n, 7, 7, 128, 128); }
    if t == 2 { AndMask(n, 7, 14, 128, 0x4000); }
    if t == 3 { AndMask(n, 7, 21, 128, 0x20_0000); }
    if t == 4 { AndMask(n, 4, 28, 16, 0x1000_0000); }
  }

  /** The octets emitted for the groups from t up. */
  function High(n: uint32, t: nat): seq<byte> {
    SubIdHigh(Above(n, t))
  }

  /** Adding the group at t to the octets already emitted. */
  lemma EmitGroup(n: uint32, t: nat)
    requires t <= 4 && Above(n, t) > 0
    ensures High(n, t) == High(n, t + 1) + [128 + Above(n, t) % 128]
  {
    hide SubIdHigh;
    HighStep(Above(n, t));
    Pow128Values();
    hide Pow128;
    if t == 0 { assert n / 1 == n; }
    if t == 1 { assert n / 128 / 128 == n / 0x4000; }
    if t == 2 { assert n / 0x4000 / 128 == n / 0x20_0000; }
    if t == 3 { assert n / 0x20_0000 / 128 == n / 0x1000_0000; }
    if t == 4 { assert n / 0x1000_0000 / 128 == n / 0x8_0000_0000; }
  }

  lemma HighStep(m: nat)
    requires m > 0
    ensures SubIdHigh(m) == SubIdHigh(m / 128) + [128 + m % 128]
  {}

  /** The mask as it is after the shift and the correction of a mask that had been truncated. */
  lemma MaskDown(t: nat)
    requires 1 <= t <= 4
    ensures MaskAt(t) / 128 == if t == 4 then 0x1E0_0000 else MaskAt(t - 1)
  {}

  /** The octet of a group whose mask is in place. */
  lemma GroupOctet(n: uint32, t: nat)
    requires t <= 4
    ensures And(n, MaskAt(t)) / Pow128(t) == Above(n, t) % 128
  {
    hide And, Pow128;
    GroupMask(n, t);
    Pow128Values();
  }

  /** The value of the t lowest groups. */
  function Low(n: uint32, t: nat): (r: nat)
    ensures r < Pow128(t)
  {
    n % Pow128(t)
  }

  lemma GroupAdds(n: uint32, t: nat)
    requires t <= 4 && Above(n, t) % 128 == 0
    ensures Low(n, t + 1) == Low(n, t)
  {
    var p := Pow128(t);
    var (q, r) := Divide(n, p);
    hide Divide;
    Spread(128, p, q / 128, 0);
    Unique(n, 128 * p, q / 128, r);
  }

  /** What one round of the test loop learns. */
  lemma GroupTest(n: uint32, t: nat)
    requires t <= 4
    ensures And(n, MaskAt(t)) == 0 ==> Low(n, t + 1) == Low(n, t)
    ensures And(n, MaskAt(t)) != 0 ==> Above(n, t) > 0
  {
    hide And, Pow128, Low, Above;
    GroupMask(n, t);
    Factors(Above(n, t) % 128, Pow128(t));
    if Above(n, t) % 128 == 0 { GroupAdds(n, t); }
    Small(Above(n, t));
  }

  lemma Factors(a: nat, p: nat)
    requires p > 0
    ensures a * p == 0 <==> a == 0
  {}

  lemma Small(q: int)
    ensures q == 0 ==> q % 128 == 0
  {}

  lemma LowEnds(n: uint32, g: nat)
    ensures Low(n, 0) == 0 && Above(n, 0) == n
    ensures g <= 4 && Low(n, 5) < Pow128(g + 1) ==> Above(n, g + 1) == 0
  {
    Pow128Values();
    if g <= 4 && Low(n, 5) < Pow128(g + 1) { Quotient(n, Pow128(g + 1), 0, n); }
  }

  /** The highest group with a bit set, by the test loop. */
  method TopGroup(subid: uint32) returns (mask: uint32, bits: nat)
    requires subid > 0
    ensures bits % 7 == 0 && bits <= 28 && mask == MaskAt(bits / 7)
    ensures Above(subid, bits / 7) > 0 && Above(subid, bits / 7 + 1) == 0
  {
    hide And, Pow128, Low, Above;
    LowEnds(subid, 0);
    mask, bits := 0x7F, 0;
    var testmask: uint32, testbits := 0x7F, 0;
    ghost var t, g := 0, 0;
    while testmask != 0
      invariant 0 <= t <= 5 && testmask == MaskAt(t) && testbits == 7 * t
      invariant 0 <= g <= 4 && bits == 7 * g && mask == MaskAt(g)
      invariant Low(subid, t) < Pow128(g + 1) && Above(subid, g) > 0
      decreases 5 - t
    {
      GroupTest(subid, t);
      if And(subid, testmask) != 0 {
        mask, bits := testmask, testbits;
        g := t;
      }
      testmask, testbits := testmask * 128 % 0x1_0000_0000, testbits + 7;
      t := t + 1;
    }
    LowEnds(subid, g);
  }

  lemma ShiftBy(t: nat)
    requires t <= 4
    ensures Pow2(7 * t) == Pow128(t)
  {
    hide Pow2, Pow128;
    Pow2Values();
    Pow128Values();
  }

  lemma {:induction false} HighShorter(n: uint32, t: nat)
    requires 1 <= t <= 4
    ensures |High(n, t)| <= |High(n, 1)|
  {
    hide High, Pow128, Above;
    if t > 1 {
      HighShorter(n, t - 1);
      Pow128Zero(n, t);
      NoHigh(n, t);
      if Above(n, t - 1) > 0 { EmitGroup(n, t - 1); }
    }
  }

  lemma NoHigh(n: uint32, t: nat)
    ensures Above(n, t) == 0 ==> High(n, t) == []
  {}

  lemma Pow128Zero(n: uint32, t: nat)
    requires t >= 1
    ensures Above(n, t - 1) == 0 ==> Above(n, t) == 0
  {
    if Above(n, t - 1) == 0 {
      assert n < Pow128(t - 1) by { var (q, r) := Divide(n, Pow128(t - 1)); }
      Quotient(n, Pow128(t), 0, n);
    }
  }

  /** One sub-identifier, most significant group first. */
  method EmitSubId(buf: array<byte>, pos: nat, subid: uint32) returns (p: nat)
    requires pos + |EncSubId(subid)| <= buf.Length
    modifies buf
    ensures p == pos + |EncSubId(subid)| && HasAt(buf[..], pos, EncSubId(subid))
    ensures Kept(old(buf[..]), buf[..], pos, |EncSubId(subid)|)
  {
    hide And, Pow128, Pow2, High, EncSubId, Above;
    LastGroup(subid);
    p := pos;
    if subid < 127 {
      FirstSubId(subid);
      buf[p] := subid;
      return p + 1;
    }
    var mask, bits := TopGroup(subid);
    ghost var t, done: seq<byte> := bits / 7, [];
    NoHigh(subid, t + 1);
    while mask != 0x7F
      invariant 0 <= t <= 4 && bits == 7 * t && (mask == MaskAt(t) || (mask == 0x1E0_0000 && t == 3))
      invariant Above(subid, t) > 0 && done == High(subid, t + 1)
      invariant p == pos + |done| && |done| <= |High(subid, 1)| && buf[..][pos..p] == done
      invariant Kept(old(buf[..]), buf[..], pos, |EncSubId(subid)|)
      decreases t
    {
      if mask == 0x1E0_0000 { mask := 0xFE0_0000; }
      EmitGroup(subid, t);
      HighShorter(subid, t);
      ShiftBy(t);
      GroupOctet(subid, t);
      Pow128Zero(subid, t);
      buf[p] := And(subid, mask) / Pow2(bits) + 0x80; // bit 8 is clear, so the or is a sum
      done := done + [buf[p]];
      p := p + 1;
      MaskDown(t);
      mask, bits := mask / 128, bits - 7;
      t := t - 1;
    }
    buf[p] := And(subid, mask);
    assert buf[..][pos..p + 1] == done + [buf[p]];
    p := p + 1;
  }

  lemma LastGroup(n: uint32)
    ensures And(n, 0x7F) == n % 128 && EncSubId(n) == High(n, 1) + [n % 128]
  {
    hide And;
    GroupMask(n, 0);
  }

  const MAX_OID_LEN := 128

  /** The contents fit the local buffer of asn_build_objid, which does not look. */
  predicate Held(oid: Oid) {
    |ObjidContent(oid)| <= MAX_OID_LEN
  }

  lemma Appended(a: seq<byte>, b: seq<byte>, pos: nat, enc: seq<byte>)
    requires pos <= |a| && Kept(a, b, pos, |enc|) && HasAt(b, pos, enc)
    ensures b[..pos + |enc|] == a[..pos] + enc
  {
    assert b[..pos + |enc|] == b[..pos] + b[pos..pos + |enc|];
    assert b[..pos] == a[..pos];
  }

  lemma NextSubId(s: seq<uint32>, i: nat)
    requires i < |s|
    ensures EncSubIds(s[i..]) == EncSubId(s[i]) + EncSubIds(s[i + 1..])
  {
    assert s[i..][1..] == s[i + 1..];
  }

  lemma NoSubIds(s: seq<uint32>)
    ensures EncSubIds(s[|s|..]) == []
  {}

  /** The contents, gathered in a local buffer; over says that they run past its end. */
  method FillObjid(tmp: array<byte>, oid: Oid) returns (bp: nat, over: bool)
    requires tmp.Length == MAX_OID_LEN
    modifies tmp
    ensures over <==> !Held(oid)
    ensures !over ==> bp <= tmp.Length && tmp[..bp] == ObjidContent(oid)
  {
    hide EncSubId, EncSubIds, Kept, HasAt, FirstArcs;
    over := false;
    if |oid| < 2 {
      tmp[0] := 0;
      return 1, false;
    }
    tmp[0] := FirstArcs(oid[0], oid[1]) % 256;
    bp := 1;
    var i := 2;
    while i < |oid|
      invariant 2 <= i <= |oid| && bp <= tmp.Length
      invariant tmp[..bp] + EncSubIds(oid[i..]) == ObjidContent(oid)
    {
      NextSubId(oid, i);
      ghost var before := tmp[..];
      Regroup(before[..bp], EncSubId(oid[i]), EncSubIds(oid[i + 1..]));
      if tmp.Length - bp < |EncSubId(oid[i])| { return bp, true; }
      var bq := EmitSubId(tmp, bp, oid[i]);
      Appended(before, tmp[..], bp, EncSubId(oid[i]));
      assert tmp[..bq] == before[..bp] + EncSubId(oid[i]);
      bp, i := bq, i + 1;
    }
    NoSubIds(oid);
  }

  /** over: the contents are written past the end of the local buffer, and nothing else is known. */
  method BuildObjid(buf: array<byte>, pos: nat, left: nat, typ: byte, oid: Oid)
    returns (ok: bool, over: bool, p: nat, l: nat)
    requires pos + left <= buf.Length
    modifies buf
    ensures (over <==> !Held(oid)) && (over <==> |ObjidContent(oid)| > 128)
    ensures over ==> !ok && buf[..] == old(buf[..])
    ensures !over ==> Built(old(buf[..]), buf[..], pos, left, EncObjid(typ, oid), ok, p, l)
  {
    hide ObjidContent, Built;
    var tmp := new byte[MAX_OID_LEN];
    var bp;
    bp, over := FillObjid(tmp, oid);
    assert buf[..] == old(buf[..]);
    ok, p, l := false, pos, left;
    if !over { ok, p, l := BuildString(buf, pos, left, typ, tmp[..bp]); }
  }

  /** An identifier the decoder would accept, of n further arcs of 32 bits each. */
  function LongOid(n: nat): Oid {
    [1, 3] + seq(n, i => 0xFFFF_FFFF)
  }

  /** Each such arc takes five octets, so 26 of them do not fit the local buffer, though 64 arcs are allowed. */
  lemma LongOidOverruns(n: nat)
    ensures |ObjidContent(LongOid(n))| == 1 + 5 * n
    ensures OidOk(LongOid(n), 64) <==> n <= 62
    ensures Held(LongOid(n)) <==> n <= 25
  {
    hide EncSubId;
    var arcs: seq<uint32> := seq(n, i => 0xFFFF_FFFF);
    assert LongOid(n)[2..] == arcs;
    LongArcs(arcs);
  }

  lemma {:induction false} LongArcs(arcs: seq<uint32>)
    requires forall i :: 0 <= i < |arcs| ==> arcs[i] == 0xFFFF_FFFF
    ensures |EncSubIds(arcs)| == 5 * |arcs|
  {
    hide EncSubId;
    if arcs != [] {
      LongArc();
      assert EncSubIds(arcs) == EncSubId(arcs[0]) + EncSubIds(arcs[1..]);
      LongArcs(arcs[1..]);
    }
  }

  lemma LongArc()
    ensures |EncSubId(0xFFFF_FFFF)| == 5
  {
    assert 0xFFFF_FFFF / 128 / 128 / 128 / 128 == 15;
    assert SubIdHigh(15) == [143];
    assert |SubIdHigh(0xFFFF_FFFF / 128 / 128 / 128)| == 2;
    assert |SubIdHigh(0xFFFF_FFFF / 128 / 128)| == 3;
    assert |SubIdHigh(0xFFFF_FFFF / 128)| == 4;
  }
}
