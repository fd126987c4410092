/** lib/md5.c: the streaming context. The block transform is a parameter. */
module Md5 {
  import opened Buffers
  import opened Powers
  import opened Md5Blocks

  type uint32 = x: int | 0 <= x < 0x1_0000_0000

  class Context<S> {
    const transform: (S, Octets) -> S
    const init: S
    var buf: S
    var bytes0: uint32
    var bytes1: uint32
    const inn: array<byte>
    ghost var fed: Octets

    /** The context is a function of the octets fed, however they came. */
    ghost predicate Valid()
      reads this, inn
    {
      && inn.Length == 64
      && buf == Blocks(transform, init, fed)
      && inn[..|fed| % 64] == Tail(fed)
      && bytes0 == |fed| % 0x1_0000_0000 && bytes1 == |fed| / 0x1_0000_0000 % 0x1_0000_0000
    }

    /** SQUID_MD5Init. */
    constructor (f: (S, Octets) -> S, start: S)
      ensures Valid() && fresh(inn) && fed == [] && transform == f && init == start
    {
      transform, init, buf := f, start, start;
      bytes0, bytes1 := 0, 0;
      inn := new byte[64](_ => 0);
      fed := [];
    }

    /** memcpy into the block buffer. */
    method Copy(at: nat, data: Octets)
      requires at + |data| <= inn.Length
      modifies inn
      ensures inn[..at] == old(inn[..at]) && inn[at..at + |data|] == data
      ensures forall i :: at + |data| <= i < inn.Length ==> inn[i] == old(inn[i])
    {
      forall i | 0 <= i < |data| { inn[at + i] := data[i]; }
    }

    /** The loop over whole blocks of what is left of the data. */
    method Chunks(data: Octets) returns (rest: Octets)
      requires inn.Length == 64
      modifies this`buf, inn
      ensures buf == Blocks(transform, old(buf), data) && rest == Tail(data)
    {
      rest := data;
      while |rest| >= 64
        invariant Blocks(transform, buf, rest) == Blocks(transform, old(buf), data) && Tail(rest) == Tail(data)
        decreases |rest|
      {
        Copy(0, rest[..64]);
        assert inn[..] == inn[0..64] == rest[..64];
        Skip(rest);
        buf := transform(buf, inn[..]);
        rest := rest[64..];
      }
      assert Tail(rest) == rest;
    }

    /** The byte count, with the carry from the low to the high word. */
    method Count(len: nat) returns (t: uint32)
      requires len < 0x1_0000_0000 && bytes0 == |fed| % 0x1_0000_0000 && bytes1 == |fed| / 0x1_0000_0000 % 0x1_0000_0000
      modifies this`bytes0, this`bytes1
      ensures t == old(bytes0)
      ensures bytes0 == (|fed| + len) % 0x1_0000_0000 && bytes1 == (|fed| + len) / 0x1_0000_0000 % 0x1_0000_0000
    {
      t := bytes0;
      Counts(|fed|, len);
      bytes0 := (t + len) % 0x1_0000_0000;
      if bytes0 < t { bytes1 := (bytes1 + 1) % 0x1_0000_0000; }
    }

    /** Take data in behind the octets that wait in the block buffer, of which t are still free. */
    method Absorb(data: Octets, t: nat, ghost first: Octets)
      requires inn.Length == 64 && 1 <= t && |first| + t == 64 && inn[..|first|] == first
      modifies this`buf, inn
      ensures buf == Blocks(transform, old(buf), first + data)
      ensures var left := Tail(first + data); inn[..|left|] == left
    {
      hide Blocks, Tail;
      if t > |data| {
        Copy(64 - t, data);
        Waiting(transform, buf, first + data);
        Joined(inn[..], first, data);
        return;
      }
      Copy(64 - t, data[..t]);
      Joined(inn[..], first, data[..t]);
      FirstBlock(transform, buf, first, data, t);
      buf := transform(buf, inn[..]);
      var rest := Chunks(data[t..]);
      Copy(0, rest);
      Joined(inn[..], [], rest);
    }

    /** SQUID_MD5Update. */
    method Update(data: Octets)
      requires Valid() && |data| < 0x1_0000_0000
      modifies this, inn
      ensures Valid() && fed == old(fed) + data
    {
      hide Blocks;
      ghost var was := fed;
      var t: nat := Count(|data|);
      Low(|was|);
      BlocksAppend(transform, init, was, data);
      Absorb(data, 64 - t % 64, Tail(was));
      fed := fed + data;
    }

    /** memset(p, 0, n). */
    method Clear(p: nat, n: nat)
      requires p + n <= inn.Length
      modifies inn
      ensures inn[..p] == old(inn[..p]) && inn[p..p + n] == Zeros(n)
      ensures forall i :: p + n <= i < inn.Length ==> inn[i] == old(inn[i])
    {
      forall i | p <= i < p + n { inn[i] := 0; }
    }

    /** SQUID_MD5Final; the state becomes the digest octet by octet. */
    method Final() returns (digest: S)
      requires Valid()
      modifies this`buf, inn
      ensures digest == Blocks(transform, init, fed + Padding(|fed|))
      ensures Tail(fed + Padding(|fed|)) == [] // so every octet of it is folded in
    {
      hide Blocks, Padding;
      PaddedWhole(fed);
      hide Tail;
      Low(|fed|);
      BlocksAppend(transform, init, fed, Padding(|fed|));
      digest := Wrap(bytes0 % 64, Tail(fed));
    }

    /** Pad behind the waiting octets, and fold in the last one or two blocks. */
    method Wrap(c: nat, ghost first: Octets) returns (digest: S)
      requires inn.Length == 64 && c == |first| == |fed| % 64 && inn[..c] == first
      requires bytes0 == |fed| % 0x1_0000_0000 && bytes1 == |fed| / 0x1_0000_0000 % 0x1_0000_0000
      modifies this`buf, inn
      ensures digest == Blocks(transform, old(buf), first + Padding(|fed|))
    {
      hide Blocks, Little, Zeros;
      ghost var s, bits := buf, Little(|fed| * 8 % 0x1_0000_0000_0000_0000, 8);
      Copy(c, [0x80]);
      Joined(inn[..], first, [0x80]);
      var p, count := c + 1, 55 - c;
      ghost var lead := first + [0x80];
      if count < 0 {
        Clear(p, count + 8);
        Joined(inn[..], lead, Zeros(count + 8));
        buf := transform(buf, inn[..]);
        p, count := 0, 56;
        lead := [];
      }
      Clear(p, count);
      Joined(inn[..], lead, Zeros(count));
      Copy(56, Little(bytes0 * 8 % 0x1_0000_0000, 4) + Little(bytes1 * 8 % 0x1_0000_0000 + bytes0 / 0x2000_0000, 4));
      BitCount(|fed|);
      Joined(inn[..], lead + Zeros(count), bits);
      buf := transform(buf, inn[..]);
      digest := buf;
      LastBlocks(transform, s, first, |fed|, bits);
    }
  }

  /** The last blocks, with and without the extra one. */
  lemma LastBlocks<S>(f: (S, Octets) -> S, s: S, first: Octets, n: nat, bits: Octets)
    requires |first| == n % 64 && bits == Little(n * 8 % 0x1_0000_0000_0000_0000, 8)
    ensures var c := |first|; var m := first + Padding(n);
            if c < 56 then Blocks(f, s, m) == f(s, first + [0x80] + Zeros(55 - c) + bits)
            else Blocks(f, s, m) == f(f(s, first + [0x80] + Zeros(63 - c)), [] + Zeros(56) + bits)
  {
    hide Blocks, Little;
    var c := |first|;
    var m := first + Padding(n);
    if c < 56 {
      assert m == first + [0x80] + Zeros(55 - c) + bits;
      OneBlock(f, s, m);
    } else {
      ZerosSplit(63 - c, 56);
      var a, b := first + [0x80] + Zeros(63 - c), [] + Zeros(56) + bits;
      assert m == a + b;
      FirstBlock(f, s, a, b, 0);
      assert a + b[..0] == a && b[0..] == b;
      OneBlock(f, f(s, a), b);
    }
  }

  lemma OneBlock<S>(f: (S, Octets) -> S, s: S, m: Octets)
    requires |m| == 64
    ensures Blocks(f, s, m) == f(s, m)
  {
    assert m[..64] == m && m[64..] == [];
    Waiting(f, f(s, m), []);
  }

  lemma {:induction false} ZerosSplit(a: nat, b: nat)
    ensures Zeros(a + b) == Zeros(a) + Zeros(b)
  {
    if a > 0 { ZerosSplit(a - 1, b); }
  }

  /** The two words with the number of bits are the eight octets of it. */
  lemma BitCount(n: nat)
    ensures var t, h := n % 0x1_0000_0000, n / 0x1_0000_0000 % 0x1_0000_0000;
            && 0 <= h * 8 % 0x1_0000_0000 + t / 0x2000_0000
            && Little(t * 8 % 0x1_0000_0000, 4) + Little(h * 8 % 0x1_0000_0000 + t / 0x2000_0000, 4)
            == Little(n * 8 % 0x1_0000_0000_0000_0000, 8)
  {
    var t, h := n % 0x1_0000_0000, n / 0x1_0000_0000 % 0x1_0000_0000;
    var w0, w1 := t * 8 % 0x1_0000_0000, h * 8 % 0x1_0000_0000 + t / 0x2000_0000;
    BitWords(n);
    hide Little;
    LittleSplit(w0, w1);
  }

  lemma BitWords(n: nat)
    ensures var t, h := n % 0x1_0000_0000, n / 0x1_0000_0000 % 0x1_0000_0000;
            n * 8 % 0x1_0000_0000_0000_0000 == (t * 8 % 0x1_0000_0000) + 0x1_0000_0000 * (h * 8 % 0x1_0000_0000 + t / 0x2000_0000)
  {
    var t, q := n % 0x1_0000_0000, n / 0x1_0000_0000;
    var h := q % 0x1_0000_0000;
    var a, b := t / 0x2000_0000, t % 0x2000_0000;
    Word(t * 8, a, 8 * b);
    var c, d := h / 0x2000_0000, h % 0x2000_0000;
    Word(h * 8, c, 8 * d);
    var low := 8 * b + 0x1_0000_0000 * (8 * d + a);
    DoubleWord(n * 8, 8 * (q / 0x1_0000_0000) + c, low);
  }

  lemma DoubleWord(x: int, k: int, r: int)
    requires x == 0x1_0000_0000_0000_0000 * k + r && 0 <= r < 0x1_0000_0000_0000_0000
    ensures x % 0x1_0000_0000_0000_0000 == r
  {}

  lemma Times256(a: nat, b: nat)
    ensures 256 * a * b == 256 * (a * b)
  {}

  lemma LowOctet(w: nat, x: nat, p: nat)
    ensures (w + 256 * x) / 256 == w / 256 + x && (w + 256 * x) % 256 == w % 256
    ensures w < 256 * p ==> w / 256 < p
  {}

  lemma {:induction false} LittleJoin(w0: nat, w1: nat, k: nat, n: nat)
    requires w0 < Pow256(k)
    ensures Little(w0 + Pow256(k) * w1, k + n) == Little(w0, k) + Little(w1, n)
    decreases k
  {
    if k == 0 {
      assert Little(w0, 0) + Little(w1, n) == Little(w1, n);
    } else {
      var x := Pow256(k - 1) * w1;
      Times256(Pow256(k - 1), w1);
      LowOctet(w0, x, Pow256(k - 1));
      LittleJoin(w0 / 256, w1, k - 1, n);
      LittleStep(w0 + 256 * x, k + n);
      LittleStep(w0, k);
    }
  }

  lemma LittleStep(w: nat, k: nat)
    requires k > 0
    ensures Little(w, k) == [w % 256] + Little(w / 256, k - 1)
  {}

  lemma LittleSplit(w0: nat, w1: nat)
    requires w0 < 0x1_0000_0000
    ensures Little(w0 + 0x1_0000_0000 * w1, 8) == Little(w0, 4) + Little(w1, 4)
  {
    Pow256Values();
    hide Little, Pow256;
    LittleJoin(w0, w1, 4, 4);
  }

  lemma Joined(a: Octets, x: Octets, y: Octets)
    requires |x| + |y| <= |a| && a[..|x|] == x && a[|x|..|x| + |y|] == y
    ensures a[..|x| + |y|] == x + y
    ensures |x| + |y| == |a| ==> a == x + y
  {
    assert a[..|x| + |y|] == a[..|x|] + a[|x|..|x| + |y|];
    assert a[..|a|] == a;
  }

  lemma Low(n: nat)
    ensures n % 0x1_0000_0000 % 64 == n % 64
  {
    assert n == 0x1_0000_0000 * (n / 0x1_0000_0000) + n % 0x1_0000_0000;
    assert n == 64 * (0x400_0000 * (n / 0x1_0000_0000)) + n % 0x1_0000_0000;
  }

  lemma Word(x: int, q: int, r: int)
    requires x == 0x1_0000_0000 * q + r && 0 <= r < 0x1_0000_0000
    ensures x / 0x1_0000_0000 == q && x % 0x1_0000_0000 == r
  {}

  lemma Successor(h: int)
    ensures (h + 1) % 0x1_0000_0000 == (h % 0x1_0000_0000 + 1) % 0x1_0000_0000
  {
    var r := h % 0x1_0000_0000;
    if r == 0xFFFF_FFFF {
      Word(h + 1, h / 0x1_0000_0000 + 1, 0);
    } else {
      Word(h + 1, h / 0x1_0000_0000, r + 1);
    }
  }

  /** The byte count in two words, with its carry. */
  lemma Counts(n: nat, len: nat)
    requires len < 0x1_0000_0000
    ensures var t := n % 0x1_0000_0000;
            var low := (t + len) % 0x1_0000_0000;
            var high := n / 0x1_0000_0000 % 0x1_0000_0000;
            && (n + len) % 0x1_0000_0000 == low
            && (n + len) / 0x1_0000_0000 % 0x1_0000_0000 == (if low < t then (high + 1) % 0x1_0000_0000 else high)
  {
    var t, h := n % 0x1_0000_0000, n / 0x1_0000_0000;
    Successor(h);
    if t + len < 0x1_0000_0000 {
      Word(n + len, h, t + len);
      Word(t + len, 0, t + len);
    } else {
      Word(n + len, h + 1, t + len - 0x1_0000_0000);
      Word(t + len, 1, t + len - 0x1_0000_0000);
    }
  }

  lemma {:induction false} Waiting<S>(f: (S, Octets) -> S, s: S, m: Octets)
    requires |m| < 64
    ensures Blocks(f, s, m) == s && Tail(m) == m
  {
    assert |m| % 64 == |m|;
  }

  lemma FirstBlock<S>(f: (S, Octets) -> S, s: S, first: Octets, data: Octets, t: nat)
    requires |first| + t == 64 && t <= |data|
    ensures Blocks(f, s, first + data) == Blocks(f, f(s, first + data[..t]), data[t..])
    ensures Tail(first + data) == Tail(data[t..])
  {
    var m := first + data;
    assert m[..64] == first + data[..t] && m[64..] == data[t..];
    Skip(m);
  }

  function Flat(parts: seq<Octets>): Octets {
    if parts == [] then [] else Flat(parts[..|parts| - 1]) + parts[|parts| - 1]
  }

  /** A whole run: the digest is that of the concatenation, however it was split. */
  method Digest<S>(f: (S, Octets) -> S, start: S, parts: seq<Octets>) returns (digest: S)
    requires forall i :: 0 <= i < |parts| ==> |parts[i]| < 0x1_0000_0000
    ensures digest == Blocks(f, start, Flat(parts) + Padding(|Flat(parts)|))
  {
    hide Blocks, Padding, Context.Valid;
    var ctx := new Context(f, start);
    var i := 0;
    while i < |parts|
      invariant 0 <= i <= |parts| && ctx.Valid() && ctx.fed == Flat(parts[..i]) && fresh(ctx) && fresh(ctx.inn)
    {
      assert parts[..i + 1][..i] == parts[..i];
      ctx.Update(parts[i]);
      i := i + 1;
    }
    assert parts[..i] == parts;
    digest := ctx.Final();
  }
}
