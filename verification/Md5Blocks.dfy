/** Messages as blocks of 64 octets, and the padding of section 3.1 and 3.2 of RFC 1321. */
module Md5Blocks {
  import opened Buffers

  type Octets = seq<byte>

  /** The block transform folded over the whole blocks of a message; an incomplete last block waits. */
  function Blocks<S>(f: (S, Octets) -> S, s: S, m: Octets): S
    decreases |m|
  {
    if |m| < 64 then s else Blocks(f, f(s, m[..64]), m[64..])
  }

  function Tail(m: Octets): (t: Octets)
    ensures |t| == |m| % 64 && t == m[|m| - |t|..]
  {
    m[|m| - |m| % 64..]
  }

  /** Whatever follows is folded onto what came before, together with the octets that waited. */
  lemma {:induction false} BlocksAppend<S>(f: (S, Octets) -> S, s: S, m: Octets, d: Octets)
    ensures Blocks(f, s, m + d) == Blocks(f, Blocks(f, s, m), Tail(m) + d)
    ensures Tail(m + d) == Tail(Tail(m) + d)
    decreases |m|
  {
    if |m| < 64 {
      assert Tail(m) == m;
    } else {
      var rest := m[64..];
      BlocksAppend(f, f(s, m[..64]), rest, d);
      assert (m + d)[..64] == m[..64] && (m + d)[64..] == rest + d;
      TailRest(m, d);
    }
  }

  lemma TailRest(m: Octets, d: Octets)
    requires |m| >= 64
    ensures Tail(m) == Tail(m[64..]) && Tail(m + d) == Tail(m[64..] + d)
  {
    assert (m + d)[64..] == m[64..] + d;
    Skip(m);
    Skip(m + d);
  }

  lemma Skip(m: Octets)
    requires |m| >= 64
    ensures Tail(m) == Tail(m[64..])
  {
    assert (|m| - 64) % 64 == |m| % 64;
  }

  /** Eight octets, the least significant first. */
  function Little(v: nat, n: nat): (r: Octets)
    ensures |r| == n
  {
    if n == 0 then [] else [v % 256] + Little(v / 256, n - 1)
  }

  function Zeros(n: nat): (r: Octets)
    ensures |r| == n && forall i :: 0 <= i < n ==> r[i] == 0
  {
    if n == 0 then [] else [0] + Zeros(n - 1)
  }

  /** Zero octets that bring the message and one octet to 56 modulo 64. */
  function Gap(n: nat): nat {
    if n % 64 < 56 then 55 - n % 64 else 119 - n % 64
  }

  /** A one bit, zeroes, and the number of bits modulo 2^64. */
  function Padding(n: nat): Octets {
    [0x80] + Zeros(Gap(n)) + Little(n * 8 % 0x1_0000_0000_0000_0000, 8)
  }

  /** A padded message is whole blocks. */
  lemma PaddedWhole(m: Octets)
    ensures Tail(m + Padding(|m|)) == []
  {
    hide Zeros, Little;
    var q, r := |m| / 64, |m| % 64;
    assert |m + Padding(|m|)| == 64 * (if r < 56 then q + 1 else q + 2);
  }
}
