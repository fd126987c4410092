/**
 Shapes of the nodes of lib/splay.c. The in-order sequence s of the nodes is fixed; a pointer stands
 for an interval of s, and the two spines that top-down splaying builds stand for what lies before and
 after the interval of the current top. Child fields are maps here, so that one update is one change.
 */
module SplayShape {

  class Node<T> {
    const data: T
    var left: Node?<T>
    var right: Node?<T>

    constructor (d: T)
      ensures data == d && left == null && right == null
    {
      data, left, right := d, null, null;
    }
  }

  type Links<!T> = map<Node<T>, Node?<T>>

  function Get<T>(m: Links<T>, n: Node<T>): Node?<T> {
    if n in m then m[n] else null
  }

  ghost predicate Distinct<T>(s: seq<Node<T>>) {
    forall i, j :: 0 <= i < j < |s| ==> s[i] != s[j]
  }

  /** p is the root of a search tree over s[lo..hi], in that order. */
  ghost predicate Tree<T>(L: Links<T>, R: Links<T>, s: seq<Node<T>>, lo: nat, hi: nat, p: Node?<T>)
    requires lo <= hi <= |s|
    decreases hi - lo
  {
    if p == null then lo == hi
    else exists k :: lo <= k < hi && At(L, R, s, lo, hi, p, k)
  }

  /** The same, with the root at k. */
  ghost predicate At<T>(L: Links<T>, R: Links<T>, s: seq<Node<T>>, lo: nat, hi: nat, p: Node<T>, k: nat)
    requires lo <= k < hi <= |s|
    decreases hi - lo, 0
  {
    s[k] == p && Tree(L, R, s, lo, k, Get(L, p)) && Tree(L, R, s, k + 1, hi, Get(R, p))
  }

  /** From m down right links to l: the nodes s[lo..a], with the right link of l still to be set. */
  ghost predicate LeftSpine<T>(L: Links<T>, R: Links<T>, s: seq<Node<T>>, lo: nat, a: nat, m: Node<T>, l: Node<T>)
    requires lo <= a <= |s|
    decreases a - lo
  {
    if lo == a then m == l
    else exists k :: lo <= k < a && Get(R, m) == s[k] && Tree(L, R, s, lo, k, Get(L, s[k])) && LeftSpine(L, R, s, k + 1, a, s[k], l)
  }

  /** The mirror image: down left links to r, the nodes s[b..hi]. */
  ghost predicate RightSpine<T>(L: Links<T>, R: Links<T>, s: seq<Node<T>>, b: nat, hi: nat, m: Node<T>, r: Node<T>)
    requires b <= hi <= |s|
    decreases hi - b
  {
    if b == hi then m == r
    else exists k :: b <= k < hi && Get(L, m) == s[k] && Tree(L, R, s, k + 1, hi, Get(R, s[k])) && RightSpine(L, R, s, b, k, s[k], r)
  }

  /** The links of the nodes s[lo..hi] are the same. */
  ghost predicate Same<T>(L: Links<T>, R: Links<T>, L': Links<T>, R': Links<T>, s: seq<Node<T>>, lo: nat, hi: nat)
    requires lo <= hi <= |s|
  {
    forall i :: lo <= i < hi ==> Get(L, s[i]) == Get(L', s[i]) && Get(R, s[i]) == Get(R', s[i])
  }

  lemma {:induction false} TreeFrame<T>(L: Links<T>, R: Links<T>, L': Links<T>, R': Links<T>, s: seq<Node<T>>, lo: nat, hi: nat, p: Node?<T>)
    requires lo <= hi <= |s| && Tree(L, R, s, lo, hi, p) && Same(L, R, L', R', s, lo, hi)
    ensures Tree(L', R', s, lo, hi, p)
    decreases hi - lo
  {
    if p != null {
      var k :| lo <= k < hi && At(L, R, s, lo, hi, p, k);
      TreeFrame(L, R, L', R', s, lo, k, Get(L, p));
      TreeFrame(L, R, L', R', s, k + 1, hi, Get(R, p));
      assert At(L', R', s, lo, hi, p, k);
    }
  }

  lemma RootAt<T>(L: Links<T>, R: Links<T>, s: seq<Node<T>>, lo: nat, hi: nat, p: Node<T>) returns (k: nat)
    requires lo <= hi <= |s| && Tree(L, R, s, lo, hi, p)
    ensures lo <= k < hi && At(L, R, s, lo, hi, p, k)
  {
    k :| lo <= k < hi && At(L, R, s, lo, hi, p, k);
  }

  /** Setting the right link of l puts the new top part at the end of the spine. */
  lemma {:induction false} LeftExtend<T>(L: Links<T>, R: Links<T>, R': Links<T>, s: seq<Node<T>>, lo: nat, a: nat, k: nat, m: Node<T>, l: Node<T>)
    requires lo <= a <= k < |s| && LeftSpine(L, R, s, lo, a, m, l) && Tree(L, R', s, a, k, Get(L, s[k]))
    requires Distinct(s) && m !in s[lo..] && R' == R[l := s[k]]
    ensures LeftSpine(L, R', s, lo, k + 1, m, s[k])
    decreases a - lo
  {
    if lo == a {
      assert LeftSpine(L, R', s, k + 1, k + 1, s[k], s[k]);
    } else {
      var j :| lo <= j < a && Get(R, m) == s[j] && Tree(L, R, s, lo, j, Get(L, s[j])) && LeftSpine(L, R, s, j + 1, a, s[j], l);
      LastOfLeft(L, R, s, j + 1, a, s[j], l);
      TreeFrame(L, R, L, R', s, lo, j, Get(L, s[j]));
      LeftExtend(L, R, R', s, j + 1, a, k, s[j], l);
    }
  }

  lemma {:induction false} LastOfLeft<T>(L: Links<T>, R: Links<T>, s: seq<Node<T>>, lo: nat, a: nat, m: Node<T>, l: Node<T>)
    requires lo <= a <= |s| && LeftSpine(L, R, s, lo, a, m, l)
    ensures if lo == a then l == m else l == s[a - 1]
    decreases a - lo
  {
    if lo < a {
      var j :| lo <= j < a && Get(R, m) == s[j] && Tree(L, R, s, lo, j, Get(L, s[j])) && LeftSpine(L, R, s, j + 1, a, s[j], l);
      LastOfLeft(L, R, s, j + 1, a, s[j], l);
    }
  }

  lemma {:induction false} LeftFrame<T>(L: Links<T>, R: Links<T>, L': Links<T>, R': Links<T>, s: seq<Node<T>>, lo: nat, a: nat, m: Node<T>, l: Node<T>)
    requires lo <= a <= |s| && LeftSpine(L, R, s, lo, a, m, l)
    requires Same(L, R, L', R', s, lo, a) && Get(R, m) == Get(R', m)
    ensures LeftSpine(L', R', s, lo, a, m, l)
    decreases a - lo
  {
    if lo < a {
      var j :| lo <= j < a && Get(R, m) == s[j] && Tree(L, R, s, lo, j, Get(L, s[j])) && LeftSpine(L, R, s, j + 1, a, s[j], l);
      TreeFrame(L, R, L', R', s, lo, j, Get(L, s[j]));
      LeftFrame(L, R, L', R', s, j + 1, a, s[j], l);
    }
  }

  /** Setting the right link of l to a whole tree closes the spine. */
  lemma {:induction false} LeftClose<T>(L: Links<T>, R: Links<T>, R': Links<T>, s: seq<Node<T>>, lo: nat, a: nat, k: nat, m: Node<T>, l: Node<T>, p: Node?<T>)
    requires lo <= a <= k <= |s| && LeftSpine(L, R, s, lo, a, m, l) && Tree(L, R', s, a, k, p)
    requires Distinct(s) && m !in s[lo..] && R' == R[l := p]
    ensures Tree(L, R', s, lo, k, Get(R', m))
    decreases a - lo
  {
    if lo < a {
      var j :| lo <= j < a && Get(R, m) == s[j] && Tree(L, R, s, lo, j, Get(L, s[j])) && LeftSpine(L, R, s, j + 1, a, s[j], l);
      LastOfLeft(L, R, s, j + 1, a, s[j], l);
      TreeFrame(L, R, L, R', s, lo, j, Get(L, s[j]));
      LeftClose(L, R, R', s, j + 1, a, k, s[j], l, p);
      assert At(L, R', s, lo, k, s[j], j);
    }
  }

  lemma {:induction false} LastOfRight<T>(L: Links<T>, R: Links<T>, s: seq<Node<T>>, b: nat, hi: nat, m: Node<T>, r: Node<T>)
    requires b <= hi <= |s| && RightSpine(L, R, s, b, hi, m, r)
    ensures if b == hi then r == m else r == s[b]
    decreases hi - b
  {
    if b < hi {
      var j :| b <= j < hi && Get(L, m) == s[j] && Tree(L, R, s, j + 1, hi, Get(R, s[j])) && RightSpine(L, R, s, b, j, s[j], r);
      LastOfRight(L, R, s, b, j, s[j], r);
    }
  }

  lemma {:induction false} RightExtend<T>(L: Links<T>, R: Links<T>, L': Links<T>, s: seq<Node<T>>, k: nat, b: nat, hi: nat, m: Node<T>, r: Node<T>)
    requires k < b <= hi <= |s| && RightSpine(L, R, s, b, hi, m, r) && Tree(L', R, s, k + 1, b, Get(R, s[k]))
    requires Distinct(s) && m !in s[..hi] && L' == L[r := s[k]]
    ensures RightSpine(L', R, s, k, hi, m, s[k])
    decreases hi - b
  {
    if b == hi {
      assert RightSpine(L', R, s, k, k, s[k], s[k]);
    } else {
      var j :| b <= j < hi && Get(L, m) == s[j] && Tree(L, R, s, j + 1, hi, Get(R, s[j])) && RightSpine(L, R, s, b, j, s[j], r);
      LastOfRight(L, R, s, b, j, s[j], r);
      TreeFrame(L, R, L', R, s, j + 1, hi, Get(R, s[j]));
      RightExtend(L, R, L', s, k, b, j, s[j], r);
    }
  }

  lemma {:induction false} RightFrame<T>(L: Links<T>, R: Links<T>, L': Links<T>, R': Links<T>, s: seq<Node<T>>, b: nat, hi: nat, m: Node<T>, r: Node<T>)
    requires b <= hi <= |s| && RightSpine(L, R, s, b, hi, m, r)
    requires Same(L, R, L', R', s, b, hi) && Get(L, m) == Get(L', m)
    ensures RightSpine(L', R', s, b, hi, m, r)
    decreases hi - b
  {
    if b < hi {
      var j :| b <= j < hi && Get(L, m) == s[j] && Tree(L, R, s, j + 1, hi, Get(R, s[j])) && RightSpine(L, R, s, b, j, s[j], r);
      TreeFrame(L, R, L', R', s, j + 1, hi, Get(R, s[j]));
      RightFrame(L, R, L', R', s, b, j, s[j], r);
    }
  }

  lemma {:induction false} RightClose<T>(L: Links<T>, R: Links<T>, L': Links<T>, s: seq<Node<T>>, k: nat, b: nat, hi: nat, m: Node<T>, r: Node<T>, p: Node?<T>)
    requires k <= b <= hi <= |s| && RightSpine(L, R, s, b, hi, m, r) && Tree(L', R, s, k, b, p)
    requires Distinct(s) && m !in s[..hi] && L' == L[r := p]
    ensures Tree(L', R, s, k, hi, Get(L', m))
    decreases hi - b
  {
    if b < hi {
      var j :| b <= j < hi && Get(L, m) == s[j] && Tree(L, R, s, j + 1, hi, Get(R, s[j])) && RightSpine(L, R, s, b, j, s[j], r);
      LastOfRight(L, R, s, b, j, s[j], r);
      TreeFrame(L, R, L', R, s, j + 1, hi, Get(R, s[j]));
      RightClose(L, R, L', s, k, b, j, s[j], r, p);
      assert At(L', R, s, k, hi, s[j], j);
    }
  }

  /** The state of the loop: what lies before top hangs on N.right down to l, what lies after on N.left down to r. */
  ghost predicate Splaying<T>(L: Links<T>, R: Links<T>, s: seq<Node<T>>, a: nat, b: nat, top: Node<T>, N: Node<T>, l: Node<T>, r: Node<T>) {
    && a <= b <= |s| && Distinct(s) && N !in s
    && Tree(L, R, s, a, b, top) && LeftSpine(L, R, s, 0, a, N, l) && RightSpine(L, R, s, b, |s|, N, r)
  }

  lemma SpinesOnly<T>(L: Links<T>, R: Links<T>, L': Links<T>, R': Links<T>, s: seq<Node<T>>, a: nat, b: nat, top: Node<T>, top': Node<T>, N: Node<T>, l: Node<T>, r: Node<T>)
    requires Splaying(L, R, s, a, b, top, N, l, r) && Tree(L', R', s, a, b, top')
    requires forall n :: n !in s[a..b] ==> Get(L, n) == Get(L', n) && Get(R, n) == Get(R', n)
    ensures Splaying(L', R', s, a, b, top', N, l, r)
  {
    forall i | 0 <= i < |s| && !(a <= i < b) ensures s[i] !in s[a..b] {}
    LeftFrame(L, R, L', R', s, 0, a, N, l);
    RightFrame(L, R, L', R', s, b, |s|, N, r);
  }

  /** rotate right */
  lemma RotateRight<T>(L: Links<T>, R: Links<T>, s: seq<Node<T>>, a: nat, b: nat, top: Node<T>, y: Node<T>)
    requires a <= b <= |s| && Distinct(s) && Tree(L, R, s, a, b, top) && Get(L, top) == y
    ensures top in s[a..b] && y in s[a..b]
    ensures Tree(L[top := Get(R, y)], R[y := top], s, a, b, y)
  {
    var k := RootAt(L, R, s, a, b, top);
    var j := RootAt(L, R, s, a, k, y);
    assert s[a..b][k - a] == top && s[a..b][j - a] == y;
    var L', R' := L[top := Get(R, y)], R[y := top];
    TreeFrame(L, R, L', R', s, a, j, Get(L, y));
    TreeFrame(L, R, L', R', s, j + 1, k, Get(R, y));
    TreeFrame(L, R, L', R', s, k + 1, b, Get(R, top));
    assert At(L', R', s, j + 1, b, top, k);
    assert At(L', R', s, a, b, y, j);
  }

  /** rotate left */
  lemma RotateLeft<T>(L: Links<T>, R: Links<T>, s: seq<Node<T>>, a: nat, b: nat, top: Node<T>, y: Node<T>)
    requires a <= b <= |s| && Distinct(s) && Tree(L, R, s, a, b, top) && Get(R, top) == y
    ensures top in s[a..b] && y in s[a..b]
    ensures Tree(L[y := top], R[top := Get(L, y)], s, a, b, y)
  {
    var k := RootAt(L, R, s, a, b, top);
    var j := RootAt(L, R, s, k + 1, b, y);
    assert s[a..b][k - a] == top && s[a..b][j - a] == y;
    var L', R' := L[y := top], R[top := Get(L, y)];
    TreeFrame(L, R, L', R', s, j + 1, b, Get(R, y));
    TreeFrame(L, R, L', R', s, k + 1, j, Get(L, y));
    TreeFrame(L, R, L', R', s, a, k, Get(L, top));
    assert y != top && Get(R', y) == Get(R, y);
    assert At(L', R', s, a, j, top, k);
    assert At(L', R', s, a, b, y, j);
  }

  /** link right: top, which is s[k], and what lies after it join the right spine */
  lemma LinkRight<T>(L: Links<T>, R: Links<T>, s: seq<Node<T>>, a: nat, b: nat, top: Node<T>, N: Node<T>, l: Node<T>, r: Node<T>, k: nat)
    requires Splaying(L, R, s, a, b, top, N, l, r) && Get(L, top) != null
    requires a <= k < b && At(L, R, s, a, b, top, k)
    ensures var L' := L[r := top]; Splaying(L', R, s, a, k, Get(L', top), N, l, top) && Get(L', top) == Get(L, top)
  {
    var L' := L[r := top];
    LastOfRight(L, R, s, b, |s|, N, r);
    TreeFrame(L, R, L', R, s, a, k, Get(L, top));
    TreeFrame(L, R, L', R, s, k + 1, b, Get(R, top));
    LeftFrame(L, R, L', R, s, 0, a, N, l);
    assert s[..|s|] == s;
    RightExtend(L, R, L', s, k, b, |s|, N, r);
  }

  /** link left */
  lemma LinkLeft<T>(L: Links<T>, R: Links<T>, s: seq<Node<T>>, a: nat, b: nat, top: Node<T>, N: Node<T>, l: Node<T>, r: Node<T>, k: nat)
    requires Splaying(L, R, s, a, b, top, N, l, r) && Get(R, top) != null
    requires a <= k < b && At(L, R, s, a, b, top, k)
    ensures var R' := R[l := top]; Splaying(L, R', s, k + 1, b, Get(R', top), N, top, r) && Get(R', top) == Get(R, top)
  {
    var R' := R[l := top];
    LastOfLeft(L, R, s, 0, a, N, l);
    TreeFrame(L, R, L, R', s, a, k, Get(L, top));
    TreeFrame(L, R, L, R', s, k + 1, b, Get(R, top));
    RightFrame(L, R, L, R', s, b, |s|, N, r);
    assert s[0..] == s;
    LeftExtend(L, R, R', s, 0, a, k, N, l);
  }

  /** assemble: the four assignments at the end join spines and subtrees under top. */
  lemma Assemble<T>(L: Links<T>, R: Links<T>, s: seq<Node<T>>, a: nat, b: nat, top: Node<T>, N: Node<T>, l: Node<T>, r: Node<T>, k: nat)
    requires Splaying(L, R, s, a, b, top, N, l, r) && a <= k < b && At(L, R, s, a, b, top, k)
    ensures var R1, L1 := R[l := Get(L, top)], L[r := Get(R, top)];
            At(L1[top := Get(R1, N)], R1[top := Get(L1, N)], s, 0, |s|, top, k)
    ensures l != top && r != top
  {
    var R1, L1 := R[l := Get(L, top)], L[r := Get(R, top)];
    var L2, R2 := L1[top := Get(R1, N)], R1[top := Get(L1, N)];
    LastOfLeft(L, R, s, 0, a, N, l);
    LastOfRight(L, R, s, b, |s|, N, r);
    assert s[0..] == s && s[..|s|] == s;
    TreeFrame(L, R, L, R1, s, a, k, Get(L, top));
    LeftClose(L, R, R1, s, 0, a, k, N, l, Get(L, top));
    TreeFrame(L, R, L1, R, s, k + 1, b, Get(R, top));
    RightClose(L, R, L1, s, k + 1, b, |s|, N, r, Get(R, top));
    TreeFrame(L, R1, L2, R2, s, 0, k, Get(R1, N));
    TreeFrame(L1, R, L2, R2, s, k + 1, |s|, Get(L1, N));
  }
}
