/**
 The nodes of lib/radix.c and what it means that they hold a trie: child and parent links agree, and
 no node is used twice. Node contents are maps here, so that one assignment is one change.
 */
module RadixLinks {
  import opened RadixTree
  import opened RadixAdd
  import opened RadixDelete
  import opened RadixSteps

  /** The union in struct squid_radix_node: an internal node, or the head of a duplicate-key chain. */
  datatype Cell =
    | Inner(b: nat, mk: seq<Route>, left: RNode, right: RNode)
    | Outer(key: Key, root: bool, chain: seq<Entry>)

  class RNode {
    var cell: Cell
    var up: RNode
    var active: bool // RNF_ACTIVE

    constructor (c: Cell, a: bool)
      ensures cell == c && up == this && active == a
    {
      cell, up, active := c, this, a;
    }
  }

  type Mem = map<RNode, Cell>
  type Ups = map<RNode, RNode>

  ghost function Nodes(m: Mem, x: RNode, t: Tree): set<RNode>
    decreases t
  {
    if t.Leaf? || x !in m || !m[x].Inner? then {x}
    else {x} + Nodes(m, m[x].left, t.left) + Nodes(m, m[x].right, t.right)
  }

  /** x, whose parent is p, is the root of t. */
  ghost predicate Rep(m: Mem, u: Ups, x: RNode, p: RNode, t: Tree)
    decreases t
  {
    && x in m && x in u && u[x] == p
    && match t
       case Leaf(key, root, chain) => m[x] == Outer(key, root, chain)
       case Node(b, mk, left, right) =>
         && m[x].Inner? && m[x].b == b && m[x].mk == mk
         && Rep(m, u, m[x].left, x, left) && Rep(m, u, m[x].right, x, right)
         && Apart(Nodes(m, m[x].left, left), Nodes(m, m[x].right, right), x)
  }

  ghost predicate Apart(a: set<RNode>, b: set<RNode>, x: RNode) {
    a !! b && x !in a && x !in b
  }

  ghost predicate Same(m: Mem, u: Ups, m': Mem, u': Ups, s: set<RNode>) {
    forall n <- s :: (n in m ==> n in m' && m[n] == m'[n]) && (n in u ==> n in u' && u[n] == u'[n])
  }

  lemma {:induction false} Frame(m: Mem, u: Ups, m': Mem, u': Ups, x: RNode, p: RNode, t: Tree)
    requires Rep(m, u, x, p, t) && Same(m, u, m', u', Nodes(m, x, t))
    ensures Rep(m', u', x, p, t) && Nodes(m', x, t) == Nodes(m, x, t)
    decreases t
  {
    if t.Node? {
      Frame(m, u, m', u', m[x].left, x, t.left);
      Frame(m, u, m', u', m[x].right, x, t.right);
    }
  }

  /** The link a search for v follows at x. */
  function Child(c: Cell, v: Key): RNode
    requires c.Inner?
  {
    if GoesRight(c.b, v) then c.right else c.left
  }

  function Sub(t: Tree, v: Key): Tree
    requires t.Node?
  {
    if GoesRight(t.b, v) then t.right else t.left
  }

  function Relink(c: Cell, v: Key, y: RNode): Cell
    requires c.Inner?
  {
    if GoesRight(c.b, v) then c.(right := y) else c.(left := y)
  }

  function With(t: Tree, v: Key, s: Tree, mk: seq<Route>): (r: Tree)
    requires t.Node?
    ensures r.Node?
  {
    if GoesRight(t.b, v) then Node(t.b, mk, t.left, s) else Node(t.b, mk, s, t.right)
  }

  /** The nodes from x down to the leaf that a search for v reaches. */
  ghost function Path(m: Mem, x: RNode, t: Tree, v: Key): (s: seq<RNode>)
    ensures s != [] && s[0] == x
    decreases t
  {
    if t.Leaf? || x !in m || !m[x].Inner? then [x] else [x] + Path(m, Child(m[x], v), Sub(t, v), v)
  }

  ghost function LeafAt(m: Mem, x: RNode, t: Tree, v: Key): RNode {
    var s := Path(m, x, t, v); s[|s| - 1]
  }

  /** A node, and the side of it where a search for v goes on. */
  lemma Down(m: Mem, u: Ups, x: RNode, p: RNode, t: Tree, v: Key)
    requires Rep(m, u, x, p, t) && t.Node?
    ensures x in m && x in u && u[x] == p && m[x].Inner? && m[x].b == t.b && m[x].mk == t.mk && x in Nodes(m, x, t)
    ensures var y, sub := Child(m[x], v), Sub(t, v);
            && y in m && y in u && Rep(m, u, y, x, sub) && y in Nodes(m, y, sub) && Nodes(m, y, sub) <= Nodes(m, x, t) - {x}
            && Path(m, x, t, v) == [x] + Path(m, y, sub, v) && LeafAt(m, x, t, v) == LeafAt(m, y, sub, v)
  {}

  /** One side of a node changes, with nodes gone and nodes new; the other side and the node's own word stay. */
  lemma SideChanges(m: Mem, u: Ups, m': Mem, u': Ups, x: RNode, p: RNode, t: Tree, v: Key, s: Tree, gone: set<RNode>, fresh_: set<RNode>)
    requires Rep(m, u, x, p, t) && t.Node?
    requires x in m' && x in u' && u'[x] == p && m'[x].Inner? && m'[x].b == t.b
    requires (if GoesRight(t.b, v) then m'[x].left == m[x].left else m'[x].right == m[x].right)
    requires Rep(m', u', Child(m'[x], v), x, s)
    requires gone <= Nodes(m, Child(m[x], v), Sub(t, v))
    requires Nodes(m', Child(m'[x], v), s) == Nodes(m, Child(m[x], v), Sub(t, v)) - gone + fresh_
    requires fresh_ !! Nodes(m, x, t)
    requires Same(m, u, m', u', Nodes(m, x, t) - Nodes(m, Child(m[x], v), Sub(t, v)) - {x})
    ensures var t' := With(t, v, s, m'[x].mk);
            Rep(m', u', x, p, t') && Nodes(m', x, t') == Nodes(m, x, t) - gone + fresh_
  {
    if GoesRight(t.b, v) {
      Frame(m, u, m', u', m[x].left, x, t.left);
    } else {
      Frame(m, u, m', u', m[x].right, x, t.right);
    }
  }

  // ---------------------------------------------------------------- the path

  /** y is where a search for v goes on from x, and x is its parent. */
  ghost predicate Linked(m: Mem, u: Ups, x: RNode, y: RNode, v: Key) {
    x in m && m[x].Inner? && y == Child(m[x], v) && y in u && u[y] == x
  }

  ghost predicate LinkedAt(m: Mem, u: Ups, s: seq<RNode>, i: int, v: Key) {
    0 <= i < |s| - 1 ==> Linked(m, u, s[i], s[i + 1], v)
  }

  ghost predicate Chained(m: Mem, u: Ups, s: seq<RNode>, v: Key) {
    forall i {:trigger LinkedAt(m, u, s, i, v)} :: LinkedAt(m, u, s, i, v)
  }

  lemma ChainedFront(m: Mem, u: Ups, x: RNode, rest: seq<RNode>, v: Key)
    requires rest != [] && Linked(m, u, x, rest[0], v) && Chained(m, u, rest, v)
    ensures Chained(m, u, [x] + rest, v)
  {
    var s := [x] + rest;
    forall i ensures LinkedAt(m, u, s, i, v) {
      assert LinkedAt(m, u, rest, i - 1, v);
    }
  }

  /** Every node of the path but the last is internal, and its successor's parent. */
  lemma {:induction false} PathLinks(m: Mem, u: Ups, x: RNode, p: RNode, t: Tree, v: Key)
    requires Rep(m, u, x, p, t)
    ensures var s := Path(m, x, t, v); Chained(m, u, s, v) && forall n <- s :: n in Nodes(m, x, t)
    ensures var leaf, n := Search(t, v), LeafAt(m, x, t, v); n in m && n in u && m[n] == Outer(leaf.key, leaf.root, leaf.chain)
    decreases t
  {
    if t.Node? {
      var y := Child(m[x], v);
      PathLinks(m, u, y, x, Sub(t, v), v);
      ChainedFront(m, u, x, Path(m, y, Sub(t, v), v), v);
    }
  }

  /** Indices do not fall on the way down. */
  ghost predicate Grows(t: Tree, lo: int) {
    t.Node? ==> lo <= t.b && Grows(t.left, t.b) && Grows(t.right, t.b)
  }

  /** The leaf of a search gets another chain. */
  lemma {:induction false} SetChainRep(m: Mem, u: Ups, x: RNode, p: RNode, t: Tree, v: Key, c: seq<Entry>)
    requires Rep(m, u, x, p, t)
    ensures LeafAt(m, x, t, v) in m && m[LeafAt(m, x, t, v)].Outer?
    ensures var n := LeafAt(m, x, t, v);
            var m' := m[n := m[n].(chain := c)];
            && Rep(m', u, x, p, SetChain(t, v, c)) && Nodes(m', x, SetChain(t, v, c)) == Nodes(m, x, t)
            && Path(m', x, SetChain(t, v, c), v) == Path(m, x, t, v)
    decreases t
  {
    PathLinks(m, u, x, p, t, v);
    if t.Node? {
      Down(m, u, x, p, t, v);
      var y, n := Child(m[x], v), LeafAt(m, x, t, v);
      PathLinks(m, u, y, x, Sub(t, v), v);
      hide Rep, Nodes, Path;
      SetChainRep(m, u, y, x, Sub(t, v), v, c);
      var m' := m[n := m[n].(chain := c)];
      SideChanges(m, u, m', u, x, p, t, v, SetChain(Sub(t, v), v, c), {}, {});
      Down(m', u, x, p, SetChain(t, v, c), v);
    }
  }

  // ---------------------------------------------------------------- annotations

  /** The routes below an index that is not below the route's are not lifted to them. */
  lemma {:induction false} NotBelow(t: Tree, lo: int, r: Route)
    requires Grows(t, lo) && (r.mask.Host? || r.mask.len <= lo)
    ensures Lift(t, lo, r) == t && Unlift(t, lo, r) == t
    decreases t
  {
    if t.Node? { NotBelow(Sub(t, r.key), t.b, r); }
  }

  /** A route whose index is above that of the leaf's parent is not lifted at all. */
  lemma {:induction false} NotLifted(t: Tree, lo: int, r: Route)
    requires Grows(t, lo) && (r.mask.Net? ==> r.mask.len > ParentIndex(t, lo, r.key))
    ensures Lift(t, lo, r) == t && Unlift(t, lo, r) == t
    ensures lo <= ParentIndex(t, lo, r.key)
    decreases t
  {
    if t.Node? {
      NotLifted(Sub(t, r.key), t.b, r);
    }
  }

  function SetMk(m: Mem, a: RNode, mk: seq<Route>): Mem
    requires a in m && m[a].Inner?
  {
    m[a := m[a].(mk := mk)]
  }

  /** The node at place i of the path is the highest whose index is not below the route's. */
  ghost predicate Anchor(m: Mem, s: seq<RNode>, i: nat, lo: int, r: Route) {
    && i < |s| - 1 && r.mask.Net?
    && s[i] in m && m[s[i]].Inner? && r.mask.len <= m[s[i]].b
    && if i == 0 then lo < r.mask.len else s[i - 1] in m && m[s[i - 1]].Inner? && m[s[i - 1]].b < r.mask.len
  }

  lemma {:induction false} PathGrows(m: Mem, u: Ups, x: RNode, p: RNode, t: Tree, lo: int, v: Key, i: nat)
    requires Rep(m, u, x, p, t) && Grows(t, lo) && i < |Path(m, x, t, v)| - 1
    ensures t.Node? && Path(m, x, t, v)[i] in m && m[Path(m, x, t, v)[i]].Inner? && t.b <= m[Path(m, x, t, v)[i]].b
    decreases t
  {
    if i > 0 { PathGrows(m, u, Child(m[x], v), x, Sub(t, v), t.b, v, i - 1); }
  }

  lemma AnchorBelow(m: Mem, u: Ups, x: RNode, p: RNode, t: Tree, lo: int, r: Route, i: nat)
    requires Rep(m, u, x, p, t) && Grows(t, lo) && Anchor(m, Path(m, x, t, r.key), i, lo, r) && i > 0
    ensures t.Node? && Anchor(m, Path(m, Child(m[x], r.key), Sub(t, r.key), r.key), i - 1, t.b, r)
    ensures !LiftsTo(r, lo, t.b)
  {
    PathGrows(m, u, x, p, t, lo, r.key, i - 1);
  }

  lemma LiftHere(m: Mem, u: Ups, x: RNode, p: RNode, t: Tree, lo: int, r: Route)
    requires Rep(m, u, x, p, t) && Grows(t, lo) && Anchor(m, Path(m, x, t, r.key), 0, lo, r)
    requires forall k :: 0 <= k < |m[x].mk| ==> m[x].mk[k].mask.Net?
    ensures var m' := SetMk(m, x, MkInsert(m[x].mk, r));
            Rep(m', u, x, p, Lift(t, lo, r)) && Nodes(m', x, Lift(t, lo, r)) == Nodes(m, x, t)
  {
    assert t.Node?;
    Down(m, u, x, p, t, r.key);
    var y, sub := Child(m[x], r.key), Sub(t, r.key);
    var m' := SetMk(m, x, MkInsert(m[x].mk, r));
    NotBelow(sub, t.b, r);
    hide Rep, Nodes, Path, Grows, MkInsert;
    Frame(m, u, m', u, y, x, sub);
    SideChanges(m, u, m', u, x, p, t, r.key, sub, {}, {});
  }

  lemma {:induction false} LiftRep(m: Mem, u: Ups, x: RNode, p: RNode, t: Tree, lo: int, r: Route, i: nat)
    requires Rep(m, u, x, p, t) && Grows(t, lo) && Anchor(m, Path(m, x, t, r.key), i, lo, r)
    requires forall k :: 0 <= k < |m[Path(m, x, t, r.key)[i]].mk| ==> m[Path(m, x, t, r.key)[i]].mk[k].mask.Net?
    ensures var a := Path(m, x, t, r.key)[i];
            var m' := SetMk(m, a, MkInsert(m[a].mk, r));
            Rep(m', u, x, p, Lift(t, lo, r)) && Nodes(m', x, Lift(t, lo, r)) == Nodes(m, x, t)
    decreases t
  {
    var a, y, sub := Path(m, x, t, r.key)[i], Child(m[x], r.key), Sub(t, r.key);
    var m' := SetMk(m, a, MkInsert(m[a].mk, r));
    if i == 0 {
      LiftHere(m, u, x, p, t, lo, r);
    } else {
      AnchorBelow(m, u, x, p, t, lo, r, i);
      Down(m, u, x, p, t, r.key);
      PathLinks(m, u, y, x, sub, r.key);
      assert a == Path(m, y, sub, r.key)[i - 1];
      hide Rep, Nodes, Path, Grows, MkInsert, MkRemove, Anchor;
      LiftRep(m, u, y, x, sub, t.b, r, i - 1);
      SideChanges(m, u, m', u, x, p, t, r.key, Lift(sub, t.b, r), {}, {});
    }
  }

  lemma UnliftHere(m: Mem, u: Ups, x: RNode, p: RNode, t: Tree, lo: int, r: Route)
    requires Rep(m, u, x, p, t) && Grows(t, lo) && Anchor(m, Path(m, x, t, r.key), 0, lo, r)
    ensures var m' := SetMk(m, x, MkRemove(m[x].mk, r));
            Rep(m', u, x, p, Unlift(t, lo, r)) && Nodes(m', x, Unlift(t, lo, r)) == Nodes(m, x, t)
  {
    assert t.Node?;
    Down(m, u, x, p, t, r.key);
    var y, sub := Child(m[x], r.key), Sub(t, r.key);
    var m' := SetMk(m, x, MkRemove(m[x].mk, r));
    NotBelow(sub, t.b, r);
    hide Rep, Nodes, Path, Grows, MkRemove;
    Frame(m, u, m', u, y, x, sub);
    SideChanges(m, u, m', u, x, p, t, r.key, sub, {}, {});
  }

  lemma {:induction false} UnliftRep(m: Mem, u: Ups, x: RNode, p: RNode, t: Tree, lo: int, r: Route, i: nat)
    requires Rep(m, u, x, p, t) && Grows(t, lo) && Anchor(m, Path(m, x, t, r.key), i, lo, r)
    ensures var a := Path(m, x, t, r.key)[i];
            var m' := SetMk(m, a, MkRemove(m[a].mk, r));
            Rep(m', u, x, p, Unlift(t, lo, r)) && Nodes(m', x, Unlift(t, lo, r)) == Nodes(m, x, t)
    decreases t
  {
    var a, y, sub := Path(m, x, t, r.key)[i], Child(m[x], r.key), Sub(t, r.key);
    var m' := SetMk(m, a, MkRemove(m[a].mk, r));
    if i == 0 {
      UnliftHere(m, u, x, p, t, lo, r);
    } else {
      AnchorBelow(m, u, x, p, t, lo, r, i);
      Down(m, u, x, p, t, r.key);
      PathLinks(m, u, y, x, sub, r.key);
      assert a == Path(m, y, sub, r.key)[i - 1];
      hide Rep, Nodes, Path, Grows, MkInsert, MkRemove, Anchor;
      UnliftRep(m, u, y, x, sub, t.b, r, i - 1);
      SideChanges(m, u, m', u, x, p, t, r.key, Unlift(sub, t.b, r), {}, {});
    }
  }

  // ---------------------------------------------------------------- a new pair of nodes

  /** Promotion on the node below the new one: what it gives up and what is left of it. */
  function PromoteCell(c: Cell, d: int): (seq<Route>, Cell) {
    match c
    case Outer(key, root, chain) => (PromotedRoutes(chain, d), Outer(key, root, PromotedChain(chain, d)))
    case Inner(_, mk, _, _) =>
      SkipBound(mk, d);
      (mk[SkipLonger(mk, d)..], c.(mk := mk[..SkipLonger(mk, d)]))
  }

  /** Where squid_rn_insert links the new pair in: below this node. */
  ghost function StopParent(m: Mem, x: RNode, t: Tree, v: Key, d: nat): RNode
    decreases t
  {
    if t.Leaf? || x !in m || !m[x].Inner? then x
    else if Sub(t, v).Node? && Sub(t, v).b < d then StopParent(m, Child(m[x], v), Sub(t, v), v, d)
    else x
  }

  function NewInner(d: nat, mk: seq<Route>, v: Key, tt: RNode, s: RNode): Cell {
    if GoesRight(d, v) then Inner(d, mk, s, tt) else Inner(d, mk, tt, s)
  }

  /** Memory after the pair n, tt has been linked in between q and its child s, and s has given up its annotations. */
  function Paired(m: Mem, q: RNode, s: RNode, n: RNode, tt: RNode, r: Route, d: nat): Mem
    requires q in m && m[q].Inner? && s in m
  {
    var (mk, c) := PromoteCell(m[s], d);
    m[q := Relink(m[q], r.key, n)][s := c][tt := Outer(r.key, false, [Entry(r, IsLifted(r, d))])][n := NewInner(d, mk, r.key, tt, s)]
  }

  function PairedUps(u: Ups, q: RNode, s: RNode, n: RNode, tt: RNode): Ups {
    u[s := n][n := q][tt := n]
  }

  lemma PromoteRep(m: Mem, u: Ups, m': Mem, u': Ups, s: RNode, p: RNode, p': RNode, t: Tree, d: int)
    requires Rep(m, u, s, p, t) && s in m' && m'[s] == PromoteCell(m[s], d).1 && s in u' && u'[s] == p'
    requires Same(m, u, m', u', Nodes(m, s, t) - {s})
    ensures Rep(m', u', s, p', Promote(t, d).1) && PromoteCell(m[s], d).0 == Promote(t, d).0
    ensures Nodes(m', s, Promote(t, d).1) == Nodes(m, s, t)
  {
    if t.Node? {
      Frame(m, u, m', u', m[s].left, s, t.left);
      Frame(m, u, m', u', m[s].right, s, t.right);
    }
  }

  lemma PairHere(m: Mem, u: Ups, q: RNode, s: RNode, t: Tree, r: Route, d: nat, n: RNode, tt: RNode)
    requires q in m && m[q].Inner? && q !in Nodes(m, s, t) && Rep(m, u, s, q, t) && d < |r.key|
    requires n !in Nodes(m, s, t) && tt !in Nodes(m, s, t) && n != tt && n != q && tt != q
    requires !(t.Node? && t.b < d)
    ensures var m', u' := Paired(m, q, s, n, tt, r, d), PairedUps(u, q, s, n, tt);
            && Rep(m', u', n, q, Pair(t, r, d)) && Nodes(m', n, Pair(t, r, d)) == Nodes(m, s, t) + {n, tt}
            && Path(m', n, Pair(t, r, d), r.key) == [n, tt]
  {
    var m', u' := Paired(m, q, s, n, tt, r, d), PairedUps(u, q, s, n, tt);
    assert s in Nodes(m, s, t);
    PromoteRep(m, u, m', u', s, q, n, t, d);
    assert Path(m', tt, Sub(Pair(t, r, d), r.key), r.key) == [tt];
  }

  lemma {:induction false} PairRep(m: Mem, u: Ups, x: RNode, p: RNode, t: Tree, r: Route, d: nat, n: RNode, tt: RNode)
    requires Rep(m, u, x, p, t) && t.Node? && t.b < d < |r.key| && p !in Nodes(m, x, t) - {x}
    requires n !in Nodes(m, x, t) && tt !in Nodes(m, x, t) && n != tt
    ensures var q := StopParent(m, x, t, r.key, d); q in m && m[q].Inner? && Child(m[q], r.key) in m
    ensures var q := StopParent(m, x, t, r.key, d);
            var s := Child(m[q], r.key);
            var m', u' := Paired(m, q, s, n, tt, r, d), PairedUps(u, q, s, n, tt);
            && q in Nodes(m, x, t) && s in Nodes(m, x, t) - {x}
            && Rep(m', u', x, p, Pair(t, r, d)) && Nodes(m', x, Pair(t, r, d)) == Nodes(m, x, t) + {n, tt}
            && LeafAt(m', x, Pair(t, r, d), r.key) == tt
    decreases t
  {
    hide Pair, Promote, PromoteCell, NewInner, Rep, Nodes, Path;
    var v := r.key;
    Down(m, u, x, p, t, v);
    var y, sub := Child(m[x], v), Sub(t, v);
    var q := StopParent(m, x, t, v, d);
    if sub.Node? && sub.b < d {
      PairRep(m, u, y, x, sub, r, d, n, tt);
      var s := Child(m[q], v);
      var m', u' := Paired(m, q, s, n, tt, r, d), PairedUps(u, q, s, n, tt);
      PairDown(t, r, d);
      SideChanges(m, u, m', u', x, p, t, v, Pair(sub, r, d), {}, {n, tt});
      Down(m', u', x, p, Pair(t, r, d), v);
    } else {
      PairHere(m, u, x, y, sub, r, d, n, tt);
      var m', u' := Paired(m, x, y, n, tt, r, d), PairedUps(u, x, y, n, tt);
      PairDown(t, r, d);
      SideChanges(m, u, m', u', x, p, t, v, Pair(sub, r, d), {}, {n, tt});
      Down(m', u', x, p, Pair(t, r, d), v);
    }
  }

  lemma PairDown(t: Tree, r: Route, d: nat)
    requires t.Node? && t.b < d < |r.key|
    ensures Pair(t, r, d) == With(t, r.key, Pair(Sub(t, r.key), r, d), t.mk)
  {}

  // ---------------------------------------------------------------- splicing a node out

  function DemoteCell(c: Cell, mk: seq<Route>): Cell {
    match c
    case Outer(key, root, chain) => Outer(key, root, DemotedChain(chain, mk))
    case Inner(_, own, _, _) => c.(mk := own + mk)
  }

  function Sibling(c: Cell, v: Key): RNode
    requires c.Inner?
  {
    if GoesRight(c.b, v) then c.left else c.right
  }

  function OtherSub(t: Tree, v: Key): Tree
    requires t.Node?
  {
    if GoesRight(t.b, v) then t.left else t.right
  }

  /** The grandparent of the leaf that a search for v reaches. */
  ghost function Grandparent(m: Mem, x: RNode, t: Tree, v: Key): RNode
    decreases t
  {
    if t.Leaf? || x !in m || !m[x].Inner? || Sub(t, v).Leaf? || Sub(Sub(t, v), v).Leaf? then x
    else Grandparent(m, Child(m[x], v), Sub(t, v), v)
  }

  /** Memory after the child c of g has been spliced out: its other child s takes its place and its annotations. */
  function Spliced(m: Mem, g: RNode, c: RNode, s: RNode, v: Key): Mem
    requires g in m && m[g].Inner? && c in m && m[c].Inner? && s in m
  {
    m[g := Relink(m[g], v, s)][s := DemoteCell(m[s], m[c].mk)]
  }

  lemma DemoteRep(m: Mem, u: Ups, m': Mem, u': Ups, s: RNode, p: RNode, p': RNode, t: Tree, mk: seq<Route>)
    requires Rep(m, u, s, p, t) && s in m' && m'[s] == DemoteCell(m[s], mk) && s in u' && u'[s] == p'
    requires Same(m, u, m', u', Nodes(m, s, t) - {s})
    ensures Rep(m', u', s, p', Demote(t, mk)) && Nodes(m', s, Demote(t, mk)) == Nodes(m, s, t)
  {
    if t.Node? {
      Frame(m, u, m', u', m[s].left, s, t.left);
      Frame(m, u, m', u', m[s].right, s, t.right);
    }
  }

  ghost predicate Up(u: Ups, x: RNode, p: RNode) {
    x in u && u[x] == p
  }

  lemma SpliceHere(m: Mem, u: Ups, g: RNode, c: RNode, t: Tree, v: Key)
    requires Rep(m, u, c, g, t) && t.Node? && Sub(t, v).Leaf? && g in m && m[g].Inner? && g !in Nodes(m, c, t)
    ensures c in m && m[c].Inner? && Sibling(m[c], v) in m
    ensures var s := Sibling(m[c], v);
            var m', u' := Spliced(m, g, c, s, v), u[s := g];
            && s in Nodes(m, c, t) && s != c && s != Child(m[c], v) && LeafAt(m, c, t, v) == Child(m[c], v) && Child(m[c], v) in Nodes(m, c, t) && Up(u, Child(m[c], v), c)
            && Rep(m', u', s, g, Demote(OtherSub(t, v), t.mk)) && Nodes(m', s, Demote(OtherSub(t, v), t.mk)) == Nodes(m, c, t) - {c, Child(m[c], v)}
  {
    var s := Sibling(m[c], v);
    assert Rep(m, u, s, c, OtherSub(t, v)) && Rep(m, u, Child(m[c], v), c, Sub(t, v));
    assert s in Nodes(m, s, OtherSub(t, v)) && Nodes(m, s, OtherSub(t, v)) <= Nodes(m, c, t);
    assert Path(m, Child(m[c], v), Sub(t, v), v) == [Child(m[c], v)];
    var m', u' := Spliced(m, g, c, s, v), u[s := g];
    DemoteRep(m, u, m', u', s, c, g, OtherSub(t, v), t.mk);
  }

  lemma {:induction false} SpliceRep(m: Mem, u: Ups, x: RNode, p: RNode, t: Tree, v: Key)
    requires Rep(m, u, x, p, t) && t.Node? && Sub(t, v).Node?
    ensures var g := Grandparent(m, x, t, v); g in m && m[g].Inner?
    ensures var g := Grandparent(m, x, t, v);
            var c := Child(m[g], v); c in m && m[c].Inner? && Sibling(m[c], v) in m
    ensures var g := Grandparent(m, x, t, v);
            var c := Child(m[g], v);
            var s := Sibling(m[c], v);
            var m', u' := Spliced(m, g, c, s, v), u[s := g];
            && g in Nodes(m, x, t) && s in Nodes(m, x, t) - {x} && c in Nodes(m, x, t) - {x} && LeafAt(m, x, t, v) == Child(m[c], v)
            && Up(u, Child(m[c], v), c) && Up(u, c, g) && g != s && s != Child(m[c], v) && Child(m[c], v) in Nodes(m, x, t)
            && Rep(m', u', x, p, Splice(t, v)) && Nodes(m', x, Splice(t, v)) == Nodes(m, x, t) - {c, LeafAt(m, x, t, v)}
    decreases t
  {
    hide Demote, DemoteCell, Rep, Nodes, Path;
    Down(m, u, x, p, t, v);
    var y, sub := Child(m[x], v), Sub(t, v);
    Down(m, u, y, x, sub, v);
    var g := Grandparent(m, x, t, v);
    if Sub(sub, v).Leaf? {
      SpliceHere(m, u, x, y, sub, v);
      var s := Sibling(m[y], v);
      var m', u' := Spliced(m, x, y, s, v), u[s := x];
      SideChanges(m, u, m', u', x, p, t, v, Demote(OtherSub(sub, v), sub.mk), {y, Child(m[y], v)}, {});
    } else {
      SpliceRep(m, u, y, x, sub, v);
      var c := Child(m[g], v);
      var s := Sibling(m[c], v);
      var m', u' := Spliced(m, g, c, s, v), u[s := g];
      SideChanges(m, u, m', u', x, p, t, v, Splice(sub, v), {c, LeafAt(m, y, sub, v)}, {});
    }
  }
}
