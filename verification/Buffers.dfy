/** Octets, and what stands where in a buffer of them. */
module Buffers {

  type byte = x: int | 0 <= x < 256

  /** enc stands in data at pos. */
  ghost predicate HasAt(data: seq<byte>, pos: nat, enc: seq<byte>) {
    pos + |enc| <= |data| && data[pos..pos + |enc|] == enc
  }

  lemma HasParts(data: seq<byte>, pos: nat, a: seq<byte>, c: seq<byte>)
    ensures HasAt(data, pos, a + c) <==> HasAt(data, pos, a) && HasAt(data, pos + |a|, c)
  {
    if HasAt(data, pos, a + c) {
      var d := data[pos..pos + |a + c|];
      assert data[pos..pos + |a|] == d[..|a|] == a;
      assert data[pos + |a|..pos + |a| + |c|] == d[|a|..] == c;
    }
    if HasAt(data, pos, a) && HasAt(data, pos + |a|, c) {
      assert data[pos..pos + |a| + |c|] == data[pos..pos + |a|] + data[pos + |a|..pos + |a| + |c|];
    }
  }

  /** Nothing outside the len octets at pos has changed. */
  ghost predicate Kept(a: seq<byte>, b: seq<byte>, pos: nat, len: nat) {
    |a| == |b| && forall i :: 0 <= i < |a| && !(pos <= i < pos + len) ==> a[i] == b[i]
  }

  lemma KeptBoth(a: seq<byte>, b: seq<byte>, c: seq<byte>, pos: nat, len: nat, q: nat, m: nat)
    requires Kept(a, b, pos, len) && Kept(b, c, q, m) && pos <= q && q + m <= pos + len
    ensures Kept(a, c, pos, len)
  {}

  lemma Regroup(a: seq<byte>, b: seq<byte>, c: seq<byte>)
    ensures a + (b + c) == a + b + c
  {}
}
