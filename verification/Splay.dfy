/** lib/splay.c: top-down splaying and insertion on nodes that are changed in place. */
module Splay {
  import opened SplayShape

  // ---------------------------------------------------------------- order

  /** A comparison function is lawful when it is a total order up to equivalence. */
  ghost predicate Lawful<T(!new)>(cmp: (T, T) -> int) {
    && (forall x, y :: cmp(x, y) < 0 <==> cmp(y, x) > 0)
    && (forall x, y, z :: cmp(x, y) <= 0 && cmp(y, z) < 0 ==> cmp(x, z) < 0)
    && (forall x, y, z :: cmp(x, y) < 0 && cmp(y, z) <= 0 ==> cmp(x, z) < 0)
  }

  ghost predicate Sorted<T>(cmp: (T, T) -> int, s: seq<Node<T>>) {
    forall i, j :: 0 <= i < j < |s| ==> cmp(s[i].data, s[j].data) < 0
  }

  /** The keys below x come first, then at most one equal to x, then those above. */
  ghost predicate Cut<T>(cmp: (T, T) -> int, x: T, s: seq<Node<T>>) {
    && (forall i, j :: 0 <= i < j < |s| && cmp(x, s[j].data) >= 0 ==> cmp(x, s[i].data) > 0)
    && (forall i, j :: 0 <= i < j < |s| && cmp(x, s[i].data) <= 0 ==> cmp(x, s[j].data) < 0)
  }

  lemma SortedCut<T(!new)>(cmp: (T, T) -> int, x: T, s: seq<Node<T>>)
    requires Lawful(cmp) && Sorted(cmp, s)
    ensures Cut(cmp, x, s)
  {}

  /** s[k] is where a search for x ends: below it everything is less than x, above it greater. */
  ghost predicate Nearest<T>(cmp: (T, T) -> int, x: T, s: seq<Node<T>>, k: nat) {
    && k < |s|
    && (forall i :: 0 <= i < k ==> cmp(x, s[i].data) > 0)
    && (forall i :: k < i < |s| ==> cmp(x, s[i].data) < 0)
  }

  // ---------------------------------------------------------------- the heap

  ghost function Lefts<T>(s: seq<Node<T>>): Links<T>
    reads s
  {
    map n: Node<T> | n in s :: n.left
  }

  ghost function Rights<T>(s: seq<Node<T>>): Links<T>
    reads s
  {
    map n: Node<T> | n in s :: n.right
  }

  /** p is the root of a tree whose in-order sequence of nodes is s. */
  ghost predicate Holds<T>(s: seq<Node<T>>, p: Node?<T>)
    reads s
  {
    Distinct(s) && Tree(Lefts(s), Rights(s), s, 0, |s|, p)
  }

  /** The maps agree with the fields. */
  ghost predicate Tied<T>(L: Links<T>, R: Links<T>, nodes: set<Node<T>>)
    reads nodes
  {
    forall n <- nodes :: Get(L, n) == n.left && Get(R, n) == n.right
  }

  ghost function Elements<T>(s: seq<Node<T>>): set<Node<T>> {
    set n | n in s
  }

  /** What the loop knows about the order: everything outside s[a..b] is on the right side of x. */
  ghost predicate Outside<T>(cmp: (T, T) -> int, x: T, s: seq<Node<T>>, a: nat, b: nat) {
    Cut(cmp, x, s) ==>
      && (forall i :: 0 <= i < a && i < |s| ==> cmp(x, s[i].data) > 0)
      && (forall i :: b <= i < |s| ==> cmp(x, s[i].data) < 0)
  }

  /** The state of the loop, tied to the heap. */
  ghost predicate Loop<T>(L: Links<T>, R: Links<T>, s: seq<Node<T>>, nodes: set<Node<T>>, a: nat, b: nat, top: Node<T>, N: Node<T>, l: Node<T>, r: Node<T>)
    reads nodes
  {
    && nodes == Elements(s) + {N}
    && a < b <= |s|
    && Splaying(L, R, s, a, b, top, N, l, r)
    && Tied(L, R, nodes)
    && {top, l, r} <= nodes
  }

  lemma Starts<T>(L: Links<T>, R: Links<T>, s: seq<Node<T>>, root: Node<T>, N: Node<T>)
    requires Distinct(s) && N !in s && Tree(L, R, s, 0, |s|, root)
    ensures Splaying(L, R, s, 0, |s|, root, N, N, N) && root in s && 0 < |s|
  {
    var k := RootAt(L, R, s, 0, |s|, root);
  }

  lemma Below<T>(L: Links<T>, R: Links<T>, s: seq<Node<T>>, lo: nat, hi: nat, p: Node?<T>)
    requires lo <= hi <= |s| && Tree(L, R, s, lo, hi, p) && p != null
    ensures p in s && lo < hi
  {
    var k := RootAt(L, R, s, lo, hi, p);
  }

  lemma InSlice<T>(s: seq<Node<T>>, a: nat, b: nat, n: Node<T>)
    requires a <= b <= |s| && n in s[a..b]
    ensures n in s
  {}

  /** No node is its own child. */
  lemma NotItself<T>(L: Links<T>, R: Links<T>, s: seq<Node<T>>, a: nat, b: nat, top: Node<T>)
    requires Distinct(s) && a < b <= |s| && Tree(L, R, s, a, b, top)
    ensures Get(L, top) != top && Get(R, top) != top
  {
    var k := RootAt(L, R, s, a, b, top);
    if Get(L, top) != null { var i := RootAt(L, R, s, a, k, Get(L, top)); }
    if Get(R, top) != null { var i := RootAt(L, R, s, k + 1, b, Get(R, top)); }
  }

  /** rotate right */
  method TurnRight<T>(top: Node<T>, ghost N: Node<T>, ghost l: Node<T>, ghost r: Node<T>,
                      ghost L: Links<T>, ghost R: Links<T>, ghost s: seq<Node<T>>, ghost nodes: set<Node<T>>, ghost a: nat, ghost b: nat)
    returns (y: Node<T>, ghost L': Links<T>, ghost R': Links<T>)
    requires Loop(L, R, s, nodes, a, b, top, N, l, r) && top.left != null
    modifies nodes
    ensures Loop(L', R', s, nodes, a, b, y, N, l, r) && y == old(top.left) && y.left == old(top.left.left)
  {
    NotItself(L, R, s, a, b, top);
    hide Tree, LeftSpine, RightSpine, Distinct;
    y := top.left;
    RotateRight(L, R, s, a, b, top, y);
    InSlice(s, a, b, y);
    InSlice(s, a, b, top);
    top.left := y.right;
    y.right := top;
    L', R' := L[top := Get(R, y)], R[y := top];
    SpinesOnly(L, R, L', R', s, a, b, top, y, N, l, r);
  }

  /** rotate left */
  method TurnLeft<T>(top: Node<T>, ghost N: Node<T>, ghost l: Node<T>, ghost r: Node<T>,
                     ghost L: Links<T>, ghost R: Links<T>, ghost s: seq<Node<T>>, ghost nodes: set<Node<T>>, ghost a: nat, ghost b: nat)
    returns (y: Node<T>, ghost L': Links<T>, ghost R': Links<T>)
    requires Loop(L, R, s, nodes, a, b, top, N, l, r) && top.right != null
    modifies nodes
    ensures Loop(L', R', s, nodes, a, b, y, N, l, r) && y == old(top.right) && y.right == old(top.right.right)
  {
    NotItself(L, R, s, a, b, top);
    hide Tree, LeftSpine, RightSpine, Distinct;
    y := top.right;
    RotateLeft(L, R, s, a, b, top, y);
    InSlice(s, a, b, y);
    InSlice(s, a, b, top);
    top.right := y.left;
    y.left := top;
    L', R' := L[y := top], R[top := Get(L, y)];
    SpinesOnly(L, R, L', R', s, a, b, top, y, N, l, r);
  }

  /** link right */
  method HangRight<T>(top: Node<T>, r: Node<T>, ghost N: Node<T>, ghost l: Node<T>,
                      ghost L: Links<T>, ghost R: Links<T>, ghost s: seq<Node<T>>, ghost nodes: set<Node<T>>, ghost a: nat, ghost b: nat)
    returns (next: Node<T>, ghost L': Links<T>, ghost k: nat)
    requires Loop(L, R, s, nodes, a, b, top, N, l, r) && top.left != null
    modifies nodes
    ensures Loop(L', R, s, nodes, a, k, next, N, l, top) && k < b && s[k] == top && next == old(top.left)
  {
    hide LeftSpine, RightSpine, Distinct, Tree;
    k := RootAt(L, R, s, a, b, top);
    LinkRight(L, R, s, a, b, top, N, l, r, k);
    L' := L[r := top];
    Below(L', R, s, a, k, Get(L', top));
    r.left := top;
    next := top.left;
  }

  /** link left */
  method HangLeft<T>(top: Node<T>, l: Node<T>, ghost N: Node<T>, ghost r: Node<T>,
                     ghost L: Links<T>, ghost R: Links<T>, ghost s: seq<Node<T>>, ghost nodes: set<Node<T>>, ghost a: nat, ghost b: nat)
    returns (next: Node<T>, ghost R': Links<T>, ghost k: nat)
    requires Loop(L, R, s, nodes, a, b, top, N, l, r) && top.right != null
    modifies nodes
    ensures Loop(L, R', s, nodes, k + 1, b, next, N, top, r) && a <= k < b && s[k] == top && next == old(top.right)
  {
    hide LeftSpine, RightSpine, Distinct, Tree;
    k := RootAt(L, R, s, a, b, top);
    LinkLeft(L, R, s, a, b, top, N, l, r, k);
    R' := R[l := top];
    Below(L, R', s, k + 1, b, Get(R', top));
    l.right := top;
    next := top.right;
  }

  /** What the maps say of the nodes of s is what the fields say. */
  lemma ToHeap<T>(L: Links<T>, R: Links<T>, s: seq<Node<T>>, nodes: set<Node<T>>, top: Node<T>, k: nat)
    requires Tied(L, R, nodes) && Elements(s) <= nodes && Distinct(s)
    requires k < |s| && At(L, R, s, 0, |s|, top, k)
    ensures Holds(s, top) && At(Lefts(s), Rights(s), s, 0, |s|, top, k)
  {
    forall i | 0 <= i < |s| ensures s[i] in nodes {
      assert s[i] in Elements(s);
    }
    TreeFrame(L, R, Lefts(s), Rights(s), s, 0, k, Get(L, top));
    TreeFrame(L, R, Lefts(s), Rights(s), s, k + 1, |s|, Get(R, top));
    assert At(Lefts(s), Rights(s), s, 0, |s|, top, k);
  }

  /** assemble */
  method Join<T>(top: Node<T>, N: Node<T>, l: Node<T>, r: Node<T>,
                 ghost L: Links<T>, ghost R: Links<T>, ghost s: seq<Node<T>>, ghost nodes: set<Node<T>>, ghost a: nat, ghost b: nat, ghost k: nat)
    requires Loop(L, R, s, nodes, a, b, top, N, l, r) && a <= k < b && At(L, R, s, a, b, top, k)
    modifies nodes
    ensures Holds(s, top) && At(Lefts(s), Rights(s), s, 0, |s|, top, k)
  {
    hide LeftSpine, RightSpine, Distinct, Tree, At, Lefts, Rights;
    Assemble(L, R, s, a, b, top, N, l, r, k);
    ghost var R1, L1 := R[l := Get(L, top)], L[r := Get(R, top)];
    ghost var L2, R2 := L1[top := Get(R1, N)], R1[top := Get(L1, N)];
    l.right := top.left;
    r.left := top.right;
    assert Tied(L1, R1, nodes);
    top.left := N.right;
    top.right := N.left;
    assert Tied(L2, R2, nodes);
    ToHeap(L2, R2, s, nodes, top, k);
  }

  /** Linking top right: x is below it, so it is below all that follows. */
  lemma OutsideRight<T>(cmp: (T, T) -> int, x: T, s: seq<Node<T>>, a: nat, b: nat, k: nat)
    requires Outside(cmp, x, s, a, b) && a <= k < |s| && cmp(x, s[k].data) < 0
    ensures Outside(cmp, x, s, a, k)
  {}

  lemma OutsideLeft<T>(cmp: (T, T) -> int, x: T, s: seq<Node<T>>, a: nat, b: nat, k: nat)
    requires Outside(cmp, x, s, a, b) && k < b && k < |s| && cmp(x, s[k].data) > 0
    ensures Outside(cmp, x, s, k + 1, b)
  {}

  /** Where the loop may stop. */
  ghost predicate Settled<T>(L: Links<T>, R: Links<T>, top: Node<T>, last: int) {
    (last < 0 ==> Get(L, top) == null) && (last > 0 ==> Get(R, top) == null)
  }

  lemma Found<T>(cmp: (T, T) -> int, x: T, L: Links<T>, R: Links<T>, s: seq<Node<T>>, a: nat, b: nat, top: Node<T>, k: nat)
    requires a <= k < b <= |s| && At(L, R, s, a, b, top, k)
    requires Outside(cmp, x, s, a, b) && Settled(L, R, top, cmp(x, top.data))
    ensures Cut(cmp, x, s) ==> Nearest(cmp, x, s, k)
  {}

  /** The half of the loop body for x below t. */
  method StepLeft<T>(x: T, t: Node<T>, cmp: (T, T) -> int, r: Node<T>, ghost N: Node<T>, ghost l: Node<T>,
                     ghost L: Links<T>, ghost R: Links<T>, ghost s: seq<Node<T>>, ghost nodes: set<Node<T>>, ghost a: nat, ghost b: nat)
    returns (t': Node<T>, r': Node<T>, last: int, done: bool, ghost L': Links<T>, ghost R': Links<T>, ghost b': nat)
    requires Loop(L, R, s, nodes, a, b, t, N, l, r) && Outside(cmp, x, s, a, b) && cmp(x, t.data) < 0
    modifies nodes
    ensures Loop(L', R', s, nodes, a, b', t', N, l, r') && Outside(cmp, x, s, a, b')
    ensures done ==> last == cmp(x, t'.data) && Settled(L', R', t', last)
    ensures if done then b' == b else b' < b
    ensures old(t.left) == null ==> done && t' == t
    ensures old(t.left) != null && cmp(x, old(t.left).data) >= 0 ==> !done && r' == t && t' == old(t.left)
    ensures old(t.left) != null && cmp(x, old(t.left).data) < 0 ==> // two steps down at once, by a rotation
              if old(t.left.left) == null then done && t' == old(t.left) else !done && r' == old(t.left) && t' == old(t.left.left)
  {
    hide Outside, Splaying;
    t', r', last, done, L', R', b' := t, r, cmp(x, t.data), true, L, R, b;
    if t.left == null { return; }
    last := cmp(x, t.left.data);
    if last < 0 {
      t', L', R' := TurnRight(t, N, l, r, L, R, s, nodes, a, b);
      if t'.left == null { return; }
    }
    r' := t';
    t', L', b' := HangRight(t', r, N, l, L', R', s, nodes, a, b);
    OutsideRight(cmp, x, s, a, b, b');
    done := false;
  }

  method StepRight<T>(x: T, t: Node<T>, cmp: (T, T) -> int, l: Node<T>, ghost N: Node<T>, ghost r: Node<T>,
                      ghost L: Links<T>, ghost R: Links<T>, ghost s: seq<Node<T>>, ghost nodes: set<Node<T>>, ghost a: nat, ghost b: nat)
    returns (t': Node<T>, l': Node<T>, last: int, done: bool, ghost L': Links<T>, ghost R': Links<T>, ghost a': nat)
    requires Loop(L, R, s, nodes, a, b, t, N, l, r) && Outside(cmp, x, s, a, b) && cmp(x, t.data) > 0
    modifies nodes
    ensures Loop(L', R', s, nodes, a', b, t', N, l', r) && Outside(cmp, x, s, a', b)
    ensures done ==> last == cmp(x, t'.data) && Settled(L', R', t', last)
    ensures if done then a' == a else a < a' <= b
    ensures old(t.right) == null ==> done && t' == t
    ensures old(t.right) != null && cmp(x, old(t.right).data) <= 0 ==> !done && l' == t && t' == old(t.right)
    ensures old(t.right) != null && cmp(x, old(t.right).data) > 0 ==>
              if old(t.right.right) == null then done && t' == old(t.right) else !done && l' == old(t.right) && t' == old(t.right.right)
  {
    hide Outside, Splaying;
    t', l', last, done, L', R', a' := t, l, cmp(x, t.data), true, L, R, a;
    if t.right == null { return; }
    last := cmp(x, t.right.data);
    if last > 0 {
      t', L', R' := TurnLeft(t, N, l, r, L, R, s, nodes, a, b);
      if t'.right == null { return; }
    }
    l' := t';
    ghost var k;
    t', R', k := HangLeft(t', l, N, r, L', R', s, nodes, a, b);
    OutsideLeft(cmp, x, s, a, b, k);
    a', done := k + 1, false;
  }

  /** The loop: descend to x, taking the tree apart into two spines. */
  method Descend<T>(x: T, root: Node<T>, cmp: (T, T) -> int, N: Node<T>, ghost L0: Links<T>, ghost R0: Links<T>, ghost s: seq<Node<T>>, ghost nodes: set<Node<T>>)
    returns (t: Node<T>, l: Node<T>, r: Node<T>, last: int, ghost L: Links<T>, ghost R: Links<T>, ghost a: nat, ghost b: nat)
    requires Loop(L0, R0, s, nodes, 0, |s|, root, N, N, N)
    modifies nodes
    ensures Loop(L, R, s, nodes, a, b, t, N, l, r)
    ensures Outside(cmp, x, s, a, b) && last == cmp(x, t.data) && Settled(L, R, t, last)
  {
    hide Splaying, Tied, Elements, Settled, Outside;
    t, l, r, L, R, a, b := root, N, N, L0, R0, 0, |s|;
    OutsideAll(cmp, x, s);
    last := cmp(x, t.data);
    Equal(L, R, t);
    var done := last == 0;
    while !done
      invariant Loop(L, R, s, nodes, a, b, t, N, l, r)
      invariant Outside(cmp, x, s, a, b)
      invariant last == cmp(x, t.data) && (last == 0 ==> done)
      invariant done ==> Settled(L, R, t, last)
      decreases b - a, !done
    {
      if last < 0 {
        t, r, last, done, L, R, b := StepLeft(x, t, cmp, r, N, l, L, R, s, nodes, a, b);
      } else {
        t, l, last, done, L, R, a := StepRight(x, t, cmp, l, N, r, L, R, s, nodes, a, b);
      }
      if !done {
        last := cmp(x, t.data);
        Equal(L, R, t);
        done := last == 0;
      }
    }
  }

  /** splay_splay; last is splayLastResult. */
  method SplayTo<T>(x: T, root: Node?<T>, cmp: (T, T) -> int, ghost s: seq<Node<T>>) returns (top: Node?<T>, last: int, ghost k: nat)
    requires Holds(s, root)
    modifies s
    ensures Holds(s, top)
    ensures top == null <==> s == []
    ensures top == null ==> last == -1
    ensures top != null ==> k < |s| && s[k] == top && last == cmp(x, top.data) && At(Lefts(s), Rights(s), s, 0, |s|, top, k)
    ensures top != null && Cut(cmp, x, s) ==> Nearest(cmp, x, s, k)
  {
    hide LeftSpine, RightSpine, Distinct, Cut, Nearest, Outside, At, Splaying;
    k := 0;
    if root == null {
      return null, -1, 0;
    }
    var N := new Node<T>(root.data);
    ghost var L, R := Lefts(s), Rights(s);
    ghost var nodes := Elements(s) + {N};
    FreshNode(L, R, s, root, N);
    NodesOf(s, N);
    hide Tree, Lefts, Rights, Elements, Settled;
    ghost var a, b;
    var l, r;
    top, l, r, last, L, R, a, b := Descend(x, root, cmp, N, L, R, s, nodes);
    k := Finish(cmp, x, L, R, s, nodes, a, b, top, N, l, r);
    Join(top, N, l, r, L, R, s, nodes, a, b, k);
  }

  lemma Finish<T>(cmp: (T, T) -> int, x: T, L: Links<T>, R: Links<T>, s: seq<Node<T>>, nodes: set<Node<T>>, a: nat, b: nat, t: Node<T>, N: Node<T>, l: Node<T>, r: Node<T>)
    returns (k: nat)
    requires Loop(L, R, s, nodes, a, b, t, N, l, r) && Outside(cmp, x, s, a, b) && Settled(L, R, t, cmp(x, t.data))
    ensures a <= k < b <= |s| && s[k] == t && At(L, R, s, a, b, t, k)
    ensures Cut(cmp, x, s) ==> Nearest(cmp, x, s, k)
  {
    k := RootAt(L, R, s, a, b, t);
    Found(cmp, x, L, R, s, a, b, t, k);
  }

  lemma Equal<T>(L: Links<T>, R: Links<T>, t: Node<T>)
    ensures Settled(L, R, t, 0)
  {}

  lemma NodesOf<T>(s: seq<Node<T>>, N: Node<T>)
    ensures forall n :: n in Elements(s) + {N} <==> n in s || n == N
  {}

  lemma FreshNode<T>(L: Links<T>, R: Links<T>, s: seq<Node<T>>, root: Node<T>, N: Node<T>)
    requires Distinct(s) && N !in s && L == Lefts(s) && R == Rights(s) && Tree(L, R, s, 0, |s|, root)
    requires N.left == null && N.right == null
    ensures Loop(L, R, s, Elements(s) + {N}, 0, |s|, root, N, N, N)
  {
    Starts(L, R, s, root, N);
  }

  lemma OutsideAll<T>(cmp: (T, T) -> int, x: T, s: seq<Node<T>>)
    ensures Outside(cmp, x, s, 0, |s|)
  {}

  // ---------------------------------------------------------------- insertion and traversal

  /** x is in the tree already. */
  ghost predicate Present<T>(cmp: (T, T) -> int, x: T, s: seq<Node<T>>) {
    exists i :: 0 <= i < |s| && cmp(x, s[i].data) == 0
  }

  /** s' is s with one more node for x in it. */
  ghost predicate Inserted<T>(s: seq<Node<T>>, s': seq<Node<T>>, x: T, n: Node<T>) {
    n.data == x && exists k :: 0 <= k <= |s| && s' == s[..k] + [n] + s[k..]
  }

  lemma Shifted<T>(L: Links<T>, R: Links<T>, L': Links<T>, R': Links<T>, s: seq<Node<T>>, s': seq<Node<T>>, lo: nat, hi: nat, d: nat, p: Node?<T>)
    requires lo <= hi <= |s| && Tree(L, R, s, lo, hi, p) && hi + d <= |s'|
    requires forall i :: lo <= i < hi ==> s'[i + d] == s[i] && Get(L, s[i]) == Get(L', s[i]) && Get(R, s[i]) == Get(R', s[i])
    ensures Tree(L', R', s', lo + d, hi + d, p)
    decreases hi - lo
  {
    if p != null {
      var k := RootAt(L, R, s, lo, hi, p);
      assert s[k] == p && s'[k + d] == p;
      Shifted(L, R, L', R', s, s', lo, k, d, Get(L, p));
      Shifted(L, R, L', R', s, s', k + 1, hi, d, Get(R, p));
      assert At(L', R', s', lo + d, hi + d, p, k + d);
    }
  }

  lemma DistinctInsert<T>(s: seq<Node<T>>, at: nat, n: Node<T>)
    requires Distinct(s) && n !in s && at <= |s|
    ensures Distinct(s[..at] + [n] + s[at..])
  {}

  /** With n put in at place at, the subtrees of top keep their links; they stand one place further behind it. */
  lemma Around<T>(L: Links<T>, R: Links<T>, L': Links<T>, R': Links<T>, s: seq<Node<T>>, k: nat, at: nat, top: Node<T>, n: Node<T>)
    requires Distinct(s) && n !in s && k < |s| && k <= at <= k + 1 && At(L, R, s, 0, |s|, top, k)
    requires forall i :: 0 <= i < |s| && i != k ==> Get(L', s[i]) == Get(L, s[i]) && Get(R', s[i]) == Get(R, s[i])
    ensures var s' := s[..at] + [n] + s[at..];
            && Distinct(s') && s'[at] == n && s'[if at == k then k + 1 else k] == top
            && Tree(L', R', s', 0, k, Get(L, top)) && Tree(L', R', s', k + 2, |s'|, Get(R, top))
  {
    var s' := s[..at] + [n] + s[at..];
    DistinctInsert(s, at, n);
    hide Distinct;
    forall i | 0 <= i < k ensures s'[i] == s[i] {}
    forall i | k < i < |s| ensures s'[i + 1] == s[i] {}
    Shifted(L, R, L', R', s, s', 0, k, 0, Get(L, top));
    Shifted(L, R, L', R', s, s', k + 1, |s|, 1, Get(R, top));
  }

  lemma Nothing<T>(L: Links<T>, R: Links<T>, s: seq<Node<T>>, i: nat)
    requires i <= |s|
    ensures Tree(L, R, s, i, i, null)
  {}

  lemma Roots<T>(L: Links<T>, R: Links<T>, s: seq<Node<T>>, lo: nat, hi: nat, p: Node<T>, k: nat)
    requires lo <= k < hi <= |s| && At(L, R, s, lo, hi, p, k)
    ensures Tree(L, R, s, lo, hi, p)
  {}

  /** The new node n takes the place of top, with top as its right child. */
  lemma Before<T>(L: Links<T>, R: Links<T>, L': Links<T>, R': Links<T>, s: seq<Node<T>>, k: nat, top: Node<T>, n: Node<T>)
    requires Distinct(s) && n !in s && k < |s| && At(L, R, s, 0, |s|, top, k)
    requires forall i :: 0 <= i < |s| ==> Get(R', s[i]) == Get(R, s[i]) && Get(L', s[i]) == if i == k then null else Get(L, s[i])
    requires Get(L', n) == Get(L, top) && Get(R', n) == top
    ensures var s' := s[..k] + [n] + s[k..]; Distinct(s') && Tree(L', R', s', 0, |s'|, n)
  {
    var s' := s[..k] + [n] + s[k..];
    assert s[k] == top;
    Around(L, R, L', R', s, k, k, top, n);
    hide Distinct, Tree;
    Nothing(L', R', s', k + 1);
    Roots(L', R', s', k + 1, |s'|, top, k + 1);
    Roots(L', R', s', 0, |s'|, n, k);
  }

  lemma After<T>(L: Links<T>, R: Links<T>, L': Links<T>, R': Links<T>, s: seq<Node<T>>, k: nat, top: Node<T>, n: Node<T>)
    requires Distinct(s) && n !in s && k < |s| && At(L, R, s, 0, |s|, top, k)
    requires forall i :: 0 <= i < |s| ==> Get(L', s[i]) == Get(L, s[i]) && Get(R', s[i]) == if i == k then null else Get(R, s[i])
    requires Get(R', n) == Get(R, top) && Get(L', n) == top
    ensures var s' := s[..k + 1] + [n] + s[k + 1..]; Distinct(s') && Tree(L', R', s', 0, |s'|, n)
  {
    var s' := s[..k + 1] + [n] + s[k + 1..];
    assert s[k] == top;
    Around(L, R, L', R', s, k, k + 1, top, n);
    hide Distinct, Tree;
    Nothing(L', R', s', k + 1);
    Roots(L', R', s', 0, k + 1, top, k);
    Roots(L', R', s', 0, |s'|, n, k + 1);
  }

  /** A sorted sequence stays sorted when x goes where the search ended. */
  lemma SortedInsert<T(!new)>(cmp: (T, T) -> int, s: seq<Node<T>>, at: nat, n: Node<T>)
    requires Lawful(cmp) && Sorted(cmp, s) && at <= |s|
    requires forall i :: 0 <= i < at ==> cmp(n.data, s[i].data) > 0
    requires forall i :: at <= i < |s| ==> cmp(n.data, s[i].data) < 0
    ensures Sorted(cmp, s[..at] + [n] + s[at..])
  {
    var s' := s[..at] + [n] + s[at..];
    forall i, j | 0 <= i < j < |s'| ensures cmp(s'[i].data, s'[j].data) < 0 {
      if j == at { assert cmp(n.data, s[i].data) > 0; }
      if i == at { assert cmp(n.data, s[j - 1].data) < 0; }
    }
  }

  lemma Single<T>(n: Node<T>)
    requires n.left == null && n.right == null
    ensures Holds([n], n)
  {
    var s := [n];
    assert Tree(Lefts(s), Rights(s), s, 0, 0, null) && Tree(Lefts(s), Rights(s), s, 1, 1, null);
    assert At(Lefts(s), Rights(s), s, 0, 1, n, 0);
  }

  /** The new node takes the left subtree of the root t and t itself on its right. */
  method PutBefore<T>(t: Node<T>, n: Node<T>, ghost s: seq<Node<T>>, ghost k: nat)
    requires Holds(s, t) && n !in s && k < |s| && s[k] == t && At(Lefts(s), Rights(s), s, 0, |s|, t, k)
    modifies n, t
    ensures Holds(s[..k] + [n] + s[k..], n)
  {
    hide Tree, At;
    ghost var L, R, s' := Lefts(s), Rights(s), s[..k] + [n] + s[k..];
    n.left := t.left;
    n.right := t;
    t.left := null;
    forall i | 0 <= i < |s| ensures s[i] in s' {
      assert s[i] == s'[if i < k then i else i + 1];
    }
    assert s'[k] == n;
    Before(L, R, Lefts(s'), Rights(s'), s, k, t, n);
  }

  method PutAfter<T>(t: Node<T>, n: Node<T>, ghost s: seq<Node<T>>, ghost k: nat)
    requires Holds(s, t) && n !in s && k < |s| && s[k] == t && At(Lefts(s), Rights(s), s, 0, |s|, t, k)
    modifies n, t
    ensures Holds(s[..k + 1] + [n] + s[k + 1..], n)
  {
    hide Tree, At;
    ghost var L, R, s' := Lefts(s), Rights(s), s[..k + 1] + [n] + s[k + 1..];
    n.right := t.right;
    n.left := t;
    t.right := null;
    forall i | 0 <= i < |s| ensures s[i] in s' {
      assert s[i] == s'[if i <= k then i else i + 1];
    }
    assert s'[k + 1] == n;
    After(L, R, Lefts(s'), Rights(s'), s, k, t, n);
  }

  /** splay_insert. The tree is given by its in-order sequence; the result's is s'. */
  method Insert<T(!new)>(x: T, root: Node?<T>, cmp: (T, T) -> int, ghost s: seq<Node<T>>) returns (top: Node<T>, ghost s': seq<Node<T>>)
    requires Holds(s, root) && Lawful(cmp) && Sorted(cmp, s)
    modifies s
    ensures Holds(s', top) && Sorted(cmp, s') && top in s' && cmp(x, top.data) == 0
    ensures Present(cmp, x, s) ==> s' == s
    ensures !Present(cmp, x, s) ==> fresh(top) && Inserted(s, s', x, top)
  {
    hide Lawful, Tree, At, Cut, Holds, Lefts, Rights, Sorted;
    var n := new Node<T>(x);
    SortedCut(cmp, x, s);
    Reflexive(cmp, x);
    var t, last; ghost var k;
    t, last, k := SplayTo(x, root, cmp, s);
    if t == null {
      Single(n);
      s' := s[..0] + [n] + s[0..];
      assert s' == [n];
      SortedInsert(cmp, s, 0, n);
      return n, s';
    }
    if last < 0 {
      PutBefore(t, n, s, k);
      s' := s[..k] + [n] + s[k..];
      SortedInsert(cmp, s, k, n);
      top := n;
    } else if last > 0 {
      PutAfter(t, n, s, k);
      s' := s[..k + 1] + [n] + s[k + 1..];
      SortedInsert(cmp, s, k + 1, n);
      top := n;
    } else {
      top, s' := t, s;
    }
  }

  lemma Reflexive<T(!new)>(cmp: (T, T) -> int, x: T)
    requires Lawful(cmp)
    ensures cmp(x, x) == 0
  {}

  function Data<T>(s: seq<Node<T>>): (d: seq<T>)
    ensures |d| == |s| && forall i :: 0 <= i < |s| ==> d[i] == s[i].data
  {
    if s == [] then [] else [s[0].data] + Data(s[1..])
  }

  /** splay_walk with a walkee that appends: the data come out in order. */
  method Walk<T>(p: Node<T>, ghost s: seq<Node<T>>, ghost lo: nat, ghost hi: nat, seen: seq<T>) returns (out: seq<T>)
    requires lo <= hi <= |s| && Tree(Lefts(s), Rights(s), s, lo, hi, p)
    ensures out == seen + Data(s[lo..hi])
    decreases hi - lo
  {
    hide Tree, Lefts, Rights, Data;
    ghost var k := Subtrees(s, lo, hi, p);
    out := seen;
    if p.left != null { out := Walk(p.left, s, lo, k, out); }
    out := out + [p.data];
    if p.right != null { out := Walk(p.right, s, k + 1, hi, out); }
  }

  lemma DataParts<T>(s: seq<Node<T>>, lo: nat, k: nat, hi: nat)
    requires lo <= k < hi <= |s|
    ensures Data(s[lo..hi]) == Data(s[lo..k]) + [s[k].data] + Data(s[k + 1..hi])
    ensures |Data(s[lo..k])| == k - lo && |Data(s[k + 1..hi])| == hi - k - 1
  {
    hide Data;
  }

  /** The parts of a traversal, in terms of the fields. */
  lemma Subtrees<T>(s: seq<Node<T>>, lo: nat, hi: nat, p: Node<T>) returns (k: nat)
    requires lo <= hi <= |s| && Tree(Lefts(s), Rights(s), s, lo, hi, p)
    ensures lo <= k < hi && s[k] == p
    ensures Tree(Lefts(s), Rights(s), s, lo, k, p.left) && Tree(Lefts(s), Rights(s), s, k + 1, hi, p.right)
    ensures p.left == null ==> Data(s[lo..k]) == []
    ensures p.right == null ==> Data(s[k + 1..hi]) == []
    ensures Data(s[lo..hi]) == Data(s[lo..k]) + [p.data] + Data(s[k + 1..hi])
  {
    hide Data;
    k := RootAt(Lefts(s), Rights(s), s, lo, hi, p);
    DataParts(s, lo, k, hi);
    assert s[k] == p && p in s;
    assert Get(Lefts(s), p) == p.left && Get(Rights(s), p) == p.right;
  }

  lemma SortedNone<T>(cmp: (T, T) -> int)
    ensures Sorted(cmp, [])
  {}

  lemma Grown<T(!new)>(cmp: (T, T) -> int, x: T, s: seq<Node<T>>, s': seq<Node<T>>, top: Node<T>)
    requires (s' == s || Inserted(s, s', x, top)) && top in s' && cmp(x, top.data) == 0
    ensures forall y :: Present(cmp, y, s) ==> Present(cmp, y, s')
    ensures Present(cmp, x, s')
    ensures forall n <- s' :: n in s || (n == top && n.data == x)
  {
    if s' != s {
      var k :| 0 <= k <= |s| && s' == s[..k] + [top] + s[k..];
      forall y | Present(cmp, y, s) ensures Present(cmp, y, s') {
        var i :| 0 <= i < |s| && cmp(y, s[i].data) == 0;
        assert s'[if i < k then i else i + 1] == s[i];
      }
    }
    var j :| 0 <= j < |s'| && s'[j] == top;
  }

  lemma EmptyHolds<T>()
    ensures Holds<T>([], null)
  {}

  /** A run: insert a list of keys into an empty tree. */
  method InsertAll<T(!new)>(xs: seq<T>, cmp: (T, T) -> int) returns (top: Node?<T>, ghost s: seq<Node<T>>)
    requires Lawful(cmp)
    ensures Holds(s, top) && Sorted(cmp, s)
    ensures forall n <- s :: n.data in xs
    ensures forall x <- xs :: Present(cmp, x, s)
  {
    hide Lawful, Sorted, Present, Inserted, Tree, Lefts, Rights;
    EmptyHolds<T>();
    top, s := null, [];
    SortedNone(cmp);
    for i := 0 to |xs|
      invariant Holds(s, top) && Sorted(cmp, s) && fresh(s)
      invariant forall n <- s :: n.data in xs[..i]
      invariant forall j :: 0 <= j < i ==> Present(cmp, xs[j], s)
    {
      hide Holds;
      ghost var was := s;
      top, s := Insert(xs[i], top, cmp, s);
      Grown(cmp, xs[i], was, s, top);
      assert xs[..i + 1] == xs[..i] + [xs[i]];
      assert s == was || (fresh(top) && forall n <- s :: n in was || n == top);
      forall j | 0 <= j < |s| ensures fresh(s[j]) {
        assert s[j] in s;
        if s == was || s[j] != top { assert s[j] in was; }
      }
    }
  }
}
