/** Heap order of lib/heap.c on the sequence of keys, with at most one place out of order. */
module HeapOrder {

  function Parent(i: int): int {
    if i <= 0 then 0 else (i - 1) / 2 // the division in C truncates, so Parent(0) is 0
  }

  ghost predicate Ordered(ks: seq<real>) {
    forall i :: 0 < i < |ks| ==> ks[Parent(i)] <= ks[i]
  }

  /** What lies below e is not less than what lies above it. */
  ghost predicate Around(ks: seq<real>, e: nat) {
    forall c :: 0 < c < |ks| && Parent(c) == e && 0 < e ==> ks[Parent(e)] <= ks[c]
  }

  /** Ordered, but for the key at e and its parent's. */
  ghost predicate UpHole(ks: seq<real>, e: nat) {
    && e < |ks| && Around(ks, e)
    && forall i :: 0 < i < |ks| && i != e ==> ks[Parent(i)] <= ks[i]
  }

  /** Ordered, but for the key at e and its children's. */
  ghost predicate DownHole(ks: seq<real>, e: nat) {
    && e < |ks| && Around(ks, e)
    && forall i :: 0 < i < |ks| && Parent(i) != e ==> ks[Parent(i)] <= ks[i]
  }

  function Swap<T>(s: seq<T>, i: nat, j: nat): (r: seq<T>)
    requires i < |s| && j < |s|
    ensures |r| == |s|
  {
    s[i := s[j]][j := s[i]]
  }

  lemma UpStep(ks: seq<real>, e: nat)
    requires UpHole(ks, e) && 0 < e && ks[e] < ks[Parent(e)]
    ensures UpHole(Swap(ks, Parent(e), e), Parent(e))
  {
    var ks', p := Swap(ks, Parent(e), e), Parent(e);
    forall c | 0 < c < |ks| && Parent(c) == p && 0 < p ensures ks'[Parent(p)] <= ks'[c] {
      assert ks[Parent(p)] <= ks[p];
    }
  }

  lemma UpDone(ks: seq<real>, e: nat)
    requires UpHole(ks, e) && (e == 0 || ks[Parent(e)] <= ks[e])
    ensures Ordered(ks)
  {}

  /** k is a child of e, and no child has a smaller key. */
  ghost predicate LeastChild(ks: seq<real>, e: nat, k: nat) {
    && 0 < k < |ks| && Parent(k) == e
    && forall c :: 0 < c < |ks| && Parent(c) == e ==> ks[k] <= ks[c]
  }

  lemma DownStep(ks: seq<real>, e: nat, k: nat)
    requires DownHole(ks, e) && LeastChild(ks, e, k) && ks[k] < ks[e]
    ensures DownHole(Swap(ks, k, e), k)
  {}

  lemma DownDone(ks: seq<real>, e: nat)
    requires DownHole(ks, e) && forall c :: 0 < c < |ks| && Parent(c) == e ==> ks[e] <= ks[c]
    ensures Ordered(ks)
  {}

  /** Any key may be put anywhere: it is out of order upwards or downwards, not both. */
  lemma Replace(ks: seq<real>, e: nat, v: real)
    requires Ordered(ks) && e < |ks|
    ensures v < ks[Parent(e)] ==> UpHole(ks[e := v], e) || e == 0
    ensures v >= ks[Parent(e)] || e == 0 ==> DownHole(ks[e := v], e)
  {
    var ks' := ks[e := v];
    forall c | 0 < c < |ks| && Parent(c) == e && 0 < e ensures ks'[Parent(e)] <= ks'[c] {
      assert ks[Parent(e)] <= ks[e] <= ks[c];
    }
  }

  lemma OrderedHole(ks: seq<real>, e: nat)
    requires Ordered(ks) && e < |ks|
    ensures DownHole(ks, e)
  {
    forall c | 0 < c < |ks| && Parent(c) == e && 0 < e ensures ks[Parent(e)] <= ks[c] {
      assert ks[Parent(e)] <= ks[e] <= ks[c];
    }
  }

  /** The root is the least. */
  lemma {:induction false} RootLeast(ks: seq<real>, i: nat)
    requires Ordered(ks) && i < |ks|
    ensures ks[0] <= ks[i]
  {
    if i > 0 { RootLeast(ks, Parent(i)); }
  }
}
