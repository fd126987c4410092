/** squid_rn_addroute, squid_rn_delete and squid_rn_match of lib/radix.c on linked nodes changed in place. */
module RadixHead {
  import opened Options
  import opened RadixTree
  import opened RadixMatch
  import opened RadixAdd
  import opened RadixDelete
  import opened RadixRuns
  import opened RadixSteps
  import opened RadixLinks
  import opened RadixPairs

  // ---------------------------------------------------------------- facts about the trie

  /** All annotations are of routes with masks. */
  ghost predicate Nets(t: Tree) {
    t.Node? ==> AllNets(t.mk) && Nets(t.left) && Nets(t.right)
  }

  ghost predicate AllNets(mk: seq<Route>) {
    forall i :: 0 <= i < |mk| ==> mk[i].mask.Net?
  }

  lemma {:induction false} WfFacts(t: Tree, w: nat, lo: int)
    requires Wf(t, w, lo)
    ensures Grows(t, lo) && Nets(t)
    decreases t
  {
    if t.Node? {
      WfFacts(t.left, w, t.b);
      WfFacts(t.right, w, t.b);
      LiftableNets(Leftmost(t.left).chain, lo, t.b);
    }
  }

  /** Lifting changes neither indices nor kinds of annotations. */
  lemma {:induction false} UnliftedFacts(t: Tree, lo: int, r: Route)
    requires Grows(Lift(t, lo, r), lo) && Nets(Lift(t, lo, r))
    ensures Grows(t, lo) && Nets(t)
    decreases t
  {
    if t.Node? {
      UnliftedFacts(Sub(t, r.key), t.b, r);
      AddKeepsKinds(t.mk, r, lo, t.b);
    }
  }

  lemma AddKeepsKinds(mk: seq<Route>, r: Route, lo: int, b: int)
    requires AllNets(MkAdd(mk, r, lo, b))
    ensures AllNets(mk)
  {}

  lemma {:induction false} SetChainFacts(t: Tree, lo: int, v: Key, c: seq<Entry>)
    requires Grows(t, lo) && Nets(t)
    ensures Grows(SetChain(t, v, c), lo) && Nets(SetChain(t, v, c))
    ensures ParentIndex(SetChain(t, v, c), lo, v) == ParentIndex(t, lo, v)
    decreases t
  {
    if t.Node? { SetChainFacts(Sub(t, v), t.b, v, c); }
  }

  /** The parent link of a leaf leads to the node with the parent's index. */
  lemma {:induction false} ParentIs(m: Mem, u: Ups, x: RNode, p: RNode, t: Tree, lo: int, v: Key)
    requires Rep(m, u, x, p, t) && t.Node?
    ensures var s := Path(m, x, t, v);
            && |s| >= 2 && s[|s| - 1] in u && u[s[|s| - 1]] == s[|s| - 2] && s[|s| - 2] in m
            && m[s[|s| - 2]].Inner? && m[s[|s| - 2]].b == ParentIndex(t, lo, v)
    decreases t
  {
    var y, sub := Child(m[x], v), Sub(t, v);
    assert Rep(m, u, y, x, sub);
    assert Path(m, x, t, v) == [x] + Path(m, y, sub, v);
    if sub.Node? { ParentIs(m, u, y, x, sub, t.b, v); }
  }

  /** The annotations at a place of the path are annotations of the trie. */
  lemma {:induction false} PathNets(m: Mem, u: Ups, x: RNode, p: RNode, t: Tree, v: Key, i: nat)
    requires Rep(m, u, x, p, t) && Nets(t) && i < |Path(m, x, t, v)| - 1
    ensures var a := Path(m, x, t, v)[i]; a in m && m[a].Inner? && AllNets(m[a].mk)
    decreases t
  {
    if i > 0 { PathNets(m, u, Child(m[x], v), x, Sub(t, v), v, i - 1); }
  }

  lemma InitRep(m: Mem, u: Ups, t: RNode, zeros: RNode, ones: RNode, w: nat)
    requires t != zeros && t != ones && zeros != ones && t in m && zeros in m && ones in m && t in u && zeros in u && ones in u
    requires m[t] == Inner(0, [], zeros, ones) && m[zeros] == Outer(Seq(w, false), true, []) && m[ones] == Outer(Seq(w, true), true, [])
    requires u[t] == t && u[zeros] == t && u[ones] == t
    ensures Rep(m, u, t, t, InitHead(w)) && Nodes(m, t, InitHead(w)) == {t, zeros, ones}
  {
    hide Seq;
    var h := InitHead(w);
    assert Rep(m, u, zeros, t, h.left) && Rep(m, u, ones, t, h.right);
    assert Nodes(m, zeros, h.left) == {zeros} && Nodes(m, ones, h.right) == {ones};
  }

  // ---------------------------------------------------------------- the head

  class RadixTop {
    const w: nat
    const top: RNode
    var pairs: map<Route, RNode> // the internal node that each route's pair of nodes has besides its leaf
    ghost var tree: Tree
    ghost var nodes: set<RNode>

    /** squid_rn_inithead: the top node over the two sentinel leaves. */
    constructor (width: nat)
      requires 0 < width
      ensures Valid() && fresh(nodes) && w == width && tree == InitHead(width) && Routes(tree) == {}
    {
      var zeros := new RNode(Outer(Seq(width, false), true, []), true);
      var ones := new RNode(Outer(Seq(width, true), true, []), true);
      var t := new RNode(Inner(0, [], zeros, ones), true);
      zeros.up, ones.up := t, t;
      w, top, pairs := width, t, map[];
      tree, nodes := InitHead(width), {t, zeros, ones};
      new;
      hide Head, Wf, Rep, Nodes, Grows, Nets, Routes, Own, Seq, InitHead, InnersOf, Valid;
      InitHeadOk(width);
      Begin(zeros, ones);
    }

    lemma Begin(zeros: RNode, ones: RNode)
      requires tree == InitHead(w) && 0 < w && Head(tree, w) && Routes(tree) == {} && nodes == {top, zeros, ones} && pairs == map[]
      requires top != zeros && top != ones && zeros != ones && top.cell == Inner(0, [], zeros, ones)
      requires zeros.cell == Outer(Seq(w, false), true, []) && ones.cell == Outer(Seq(w, true), true, [])
      requires top.up == top && zeros.up == top && ones.up == top
      ensures Valid()
    {
      WfFacts(tree, w, -1);
      InitRep(Cells(), Parents(), top, zeros, ones, w);
      OwnNothing();
      hide Head, Wf, Rep, Nodes, Grows, Nets, Routes, Own, Seq;
    }

    ghost function Cells(): Mem
      reads this`nodes, nodes`cell
    {
      map n: RNode | n in nodes :: n.cell
    }

    ghost function Parents(): Ups
      reads this`nodes, nodes`up
    {
      map n: RNode | n in nodes :: n.up
    }

    /** The nodes hold the trie; the top node is its own parent. */
    ghost predicate Stands()
      reads this`nodes, this`tree, nodes`cell, nodes`up
    {
      tree.Node? && Rep(Cells(), Parents(), top, top, tree) && InUse() <= nodes
    }

    ghost predicate Shaped()
      reads this, nodes
    {
      && Stands()
      && Grows(tree, -1) && Nets(tree)
    }

    ghost predicate Sound()
      reads this, nodes
    {
      Shaped() && Head(tree, w)
    }

    ghost predicate Valid()
      reads this, nodes
    {
      Sound() && Owned()
    }

    /** The nodes that the tree uses, and the internal ones among them but for the top node. */
    ghost function InUse(): set<RNode>
      reads this`nodes, this`tree, nodes`cell
    {
      Nodes(Cells(), top, tree)
    }

    ghost function Inners(): set<RNode>
      reads this`nodes, this`tree, nodes`cell
    {
      InnersOf(Cells(), top, tree)
    }

    /**
     The tree uses the internal nodes inner, and they are lent by the pairs of the routes s: the internal node
     of a pair is active exactly if it is among them, and otherwise the tree does not use it at all.
     */
    ghost predicate Lent(s: set<Route>, ps: map<Route, RNode>, inner: set<RNode>)
      reads this`nodes, this`tree, nodes`cell, nodes`active
    {
      && Own(s, ps, inner)
      && forall n <- ps.Values :: n in nodes && n != top && (n.active <==> n in inner) && (n in InUse() ==> n in inner)
    }

    /** Only internal nodes of stored routes are in use. */
    ghost predicate Owned()
      reads this, nodes
    {
      Lent(Routes(tree), pairs, Inners())
    }

    ghost function PathTo(v: Key): seq<RNode>
      reads this, nodes
    {
      Path(Cells(), top, tree, v)
    }

    /** squid_rn_search. */
    method Search(v: Key) returns (x: RNode)
      requires Shaped()
      ensures var s := PathTo(v); x == s[|s| - 1] && x in nodes && |s| >= 2
      ensures var leaf := RadixTree.Search(tree, v); x.cell == Outer(leaf.key, leaf.root, leaf.chain)
      ensures x.up == PathTo(v)[|PathTo(v)| - 2] && x.up in nodes && x.up.cell.Inner? && x.up.cell.b == ParentIndex(tree, -1, v)
    {
      ghost var m, u := Cells(), Parents();
      ghost var t, p := tree, top;
      x := top;
      while x.cell.Inner?
        invariant Rep(m, u, x, p, t) && x in nodes && Nodes(m, x, t) <= nodes
        invariant LeafAt(m, x, t, v) == LeafAt(m, top, tree, v)
        decreases t
      {
        assert m[x] == x.cell;
        ghost var y := Child(m[x], v);
        assert Rep(m, u, y, x, Sub(t, v)) && y in Nodes(m, y, Sub(t, v)) && Nodes(m, y, Sub(t, v)) <= Nodes(m, x, t);
        assert Path(m, x, t, v) == [x] + Path(m, y, Sub(t, v), v);
        p, t := x, Sub(t, v);
        if GoesRight(x.cell.b, v) { x := x.cell.right; } else { x := x.cell.left; }
      }
      assert m[x] == x.cell;
      PathLinks(m, u, top, top, tree, v);
      ParentIs(m, u, top, top, tree, -1, v);
      assert Path(m, x, t, v) == [x];
    }

    /** The do-while loop that climbs to the highest ancestor whose index is not below that of the route. */
    method Climb(leaf: RNode, r: Route) returns (x: RNode, ghost i: nat)
      requires Shaped() && r.mask.Net?
      requires leaf == PathTo(r.key)[|PathTo(r.key)| - 1] && |PathTo(r.key)| >= 2 && leaf in nodes
      requires leaf.up == PathTo(r.key)[|PathTo(r.key)| - 2] && leaf.up in nodes && leaf.up.cell.Inner? && r.mask.len <= leaf.up.cell.b
      ensures Anchor(Cells(), PathTo(r.key), i, -1, r) && x == PathTo(r.key)[i] && x in nodes && x.cell.Inner?
      ensures AllNets(x.cell.mk)
    {
      ghost var m, u, s := Cells(), Parents(), PathTo(r.key);
      var t := leaf.up;
      i := |s| - 2;
      OnPathFacts(r.key, i);
      x := t;
      t := t.up;
      while r.mask.len <= t.cell.b && x != top
        invariant i < |s| - 1 && x == s[i] && x in nodes && x.cell.Inner? && r.mask.len <= x.cell.b
        invariant t == x.up && t in nodes && t.cell.Inner? && (i > 0 ==> t == s[i - 1])
        decreases i
      {
        OnPathFacts(r.key, i - 1);
        x := t;
        t := t.up;
        i := i - 1;
      }
      if x == top { i := 0; }
      PathNets(m, u, top, top, tree, r.key, i);
      assert m[x] == x.cell;
    }

    /** What is known of the node at place i of a path, and of its parent. */
    lemma OnPathFacts(v: Key, i: nat)
      requires Shaped() && i < |PathTo(v)| - 1
      ensures var x := PathTo(v)[i];
              && x in nodes && x.cell.Inner? && x.up in nodes && x.up.cell.Inner?
              && (if i == 0 then x == top && x.up == top else x.up == PathTo(v)[i - 1])
    {
      var m, u, s := Cells(), Parents(), PathTo(v);
      PathLinks(m, u, top, top, tree, v);
      assert LinkedAt(m, u, s, i, v) && s[i] in s;
      assert m[s[i]] == s[i].cell && u[s[i]] == s[i].up;
      if i > 0 {
        assert LinkedAt(m, u, s, i - 1, v) && s[i - 1] in s;
        assert m[s[i - 1]] == s[i - 1].cell;
      } else {
        assert top in Nodes(m, top, tree);
      }
    }

    /** One node's contents change. */
    method Write(x: RNode, c: Cell)
      requires x in nodes
      modifies x`cell
      ensures Cells() == old(Cells())[x := c] && Parents() == old(Parents())
    {
      x.cell := c;
      assert Cells() == old(Cells())[x := c];
    }

    /** "Add new route to highest possible ancestor's list". */
    method LiftRoute(leaf: RNode, r: Route)
      requires Shaped()
      requires leaf == PathTo(r.key)[|PathTo(r.key)| - 1] && |PathTo(r.key)| >= 2 && leaf in nodes
      modifies this`tree, nodes`cell
      ensures tree == Lift(old(tree), -1, r)
      ensures Stands()
      ensures InUse() == old(InUse()) && Inners() == old(Inners())
    {
      hide Rep, Nodes, Path, Internal, Cells, Parents, Grows, Nets, MkInsert;
      ghost var m, u := Cells(), Parents();
      ParentIs(m, u, top, top, tree, -1, r.key);
      OnPathFacts(r.key, |PathTo(r.key)| - 2);
      InCells(leaf);
      InCells(leaf.up);
      if r.mask.Host? || r.mask.len > leaf.up.cell.b {
        NotLifted(tree, -1, r);
        return;
      }
      var x; ghost var i;
      x, i := Climb(leaf, r);
      InCells(x);
      LiftRep(m, u, top, top, tree, -1, r, i);
      InternalRewritten(m, InUse(), x, x.cell.(mk := MkInsert(x.cell.mk, r)));
      Write(x, x.cell.(mk := MkInsert(x.cell.mk, r)));
      tree := Lift(tree, -1, r);
    }

    /** The descent of squid_rn_insert to the link that the new pair goes into. */
    method InsertPoint(v: Key, d: nat) returns (p: RNode, x: RNode)
      requires Shaped() && tree.b < d
      ensures p in nodes && x in nodes && p.cell.Inner?
      ensures p == StopParent(Cells(), top, tree, v, d) && x == Child(p.cell, v) && p != x
    {
      ghost var m, u := Cells(), Parents();
      ghost var t, q := tree, top;
      p, x := top, top;
      while true
        invariant Rep(m, u, x, q, t) && t.Node? && t.b < d && x in nodes && Nodes(m, x, t) <= nodes
        invariant StopParent(m, x, t, v, d) == StopParent(m, top, tree, v, d)
        decreases t
      {
        p := x;
        assert m[x] == x.cell;
        ghost var y := Child(m[x], v);
        assert Rep(m, u, y, x, Sub(t, v)) && y in Nodes(m, y, Sub(t, v)) && Nodes(m, y, Sub(t, v)) <= Nodes(m, x, t);
        if GoesRight(x.cell.b, v) { x := x.cell.right; } else { x := x.cell.left; }
        assert m[x] == x.cell;
        if !(x.cell.Inner? && x.cell.b < d) { break; }
        q, t := p, Sub(t, v);
      }
    }

    /** squid_rn_insert of a new key, and "Promote general routes from below". */
    method InsertPair(r: Route, d: nat, t: RNode) returns (tt: RNode)
      requires Shaped() && tree.b < d < |r.key| && t !in nodes
      modifies this`tree, this`nodes, nodes`cell, nodes`up, t
      ensures tree == Pair(old(tree), r, d) && Stands() && fresh(tt) && nodes == old(nodes) + {t, tt} && t.active
      ensures tt == LeafAt(Cells(), top, tree, r.key)
      ensures InUse() == old(InUse()) + {t, tt} && Inners() == old(Inners()) + {t}
    {
      hide Rep, Nodes, Path, Pair, Grows, Nets, StopParent, Internal, Cells, Parents;
      var p, x := InsertPoint(r.key, d);
      tt := PlacePair(p, x, r, d, t);
    }

    /** The pair goes in between p and its child x. */
    method PlacePair(p: RNode, x: RNode, r: Route, d: nat, t: RNode) returns (tt: RNode)
      requires Stands() && tree.b < d < |r.key| && t !in nodes && p in nodes && x in nodes && p.cell.Inner? && p != x
      requires p == StopParent(Cells(), top, tree, r.key, d) && x == Child(p.cell, r.key)
      modifies this`tree, this`nodes, p`cell, x`cell, x`up, t
      ensures tree == Pair(old(tree), r, d) && Stands() && fresh(tt) && nodes == old(nodes) + {t, tt} && t.active
      ensures tt == LeafAt(Cells(), top, tree, r.key)
      ensures InUse() == old(InUse()) + {t, tt} && Inners() == old(Inners()) + {t}
    {
      InCells(x);
      InCells(p);
      hide Rep, Nodes, Path, Pair, StopParent, Paired, PairedUps, InnersOf, Cells, Parents, Child;
      ghost var m, u := Cells(), Parents();
      tt := LinkPair(p, x, r, d, t);
      PairAll(m, u, top, tree, r, d, p, x, t, tt);
      tree := Pair(tree, r, d);
    }

    /** squid_rn_newpair, the four links, and what the node below gives up. */
    method LinkPair(p: RNode, x: RNode, r: Route, d: nat, t: RNode) returns (tt: RNode)
      requires p in nodes && x in nodes && p != x && p.cell.Inner? && t !in nodes
      modifies this`nodes, p`cell, x`cell, x`up, t
      ensures p in old(Cells()) && x in old(Cells())
      ensures fresh(tt) && nodes == old(nodes) + {t, tt} && t.active
      ensures Cells() == Paired(old(Cells()), p, x, t, tt, r, d)
      ensures Parents() == PairedUps(old(Parents()), p, x, t, tt)
    {
      hide PromoteCell, Cells, Parents, Relink, NewInner;
      ghost var m, u := Cells(), Parents();
      InCells(p);
      InCells(x);
      tt := new RNode(Outer(r.key, false, [Entry(r, IsLifted(r, d))]), true);
      var (mk, c) := PromoteCell(x.cell, d);
      t.cell, t.active := NewInner(d, mk, r.key, tt, x), true;
      Write(p, Relink(p.cell, r.key, t));
      Write(x, c);
      SetUp(x, t);
      t.up, tt.up := p, t;
      Adopt(tt);
      Adopt(t);
      Commute(u[x := t], t, p, tt, t);
    }

    lemma TopIn()
      requires Stands()
      ensures top in InUse() && top in nodes
    {}

    lemma InCells(n: RNode)
      requires n in nodes
      ensures n in Cells() && Cells()[n] == n.cell && n in Parents() && Parents()[n] == n.up
    {}

    method SetUp(x: RNode, p: RNode)
      requires x in nodes
      modifies x`up
      ensures Parents() == old(Parents())[x := p] && Cells() == old(Cells())
    {
      x.up := p;
      assert Parents() == old(Parents())[x := p];
    }

    method Adopt(n: RNode)
      modifies this`nodes
      ensures nodes == old(nodes) + {n} && Cells() == old(Cells())[n := n.cell] && Parents() == old(Parents())[n := n.up]
    {
      nodes := nodes + {n};
      assert Cells() == old(Cells())[n := n.cell];
      assert Parents() == old(Parents())[n := n.up];
    }

    /**
     squid_rn_addroute with the pair of nodes that the caller provides, zeroed; n is the internal one.
     False is its NULL return, which leaves everything as it was.
     */
    method AddRoute(r: Route, n: RNode) returns (ok: bool)
      requires Valid() && RouteOk(r, w) && n !in nodes && !n.active
      modifies this`tree, this`nodes, this`pairs, nodes, n
      ensures Valid() && fresh(nodes - old(nodes) - {n}) && (ok <==> n in nodes)
      ensures ok <==> r !in old(Routes(tree)) && !(IsSentinel(r.key) && r.mask.Host?)
      ensures Routes(tree) == if ok then old(Routes(tree)) + {r} else old(Routes(tree))
      ensures pairs == if ok then old(pairs)[r := n] else old(pairs)
    {
      hide Rep, Nodes, Path, Wf, Head, Grows, Nets, Routes, RadixAdd.AddRoute, Own, Internal, IsSentinel;
      AddRouteOk(tree, w, r);
      AddRouteCases(tree, r);
      KeyKnown(tree, w, r.key);
      var leaf := Search(r.key);
      if leaf.cell.key == r.key {
        ok := JoinDuplicate(r, leaf, n);
      } else {
        JoinNew(r, leaf, n);
        ok := true;
      }
      if ok { HeadFacts(tree, w); }
    }

    method JoinDuplicate(r: Route, leaf: RNode, n: RNode) returns (ok: bool)
      requires Valid() && n !in nodes && !n.active && (AddDup(tree, -1, r).Some? ==> r !in Routes(tree))
      requires leaf == LeafAt(Cells(), top, tree, r.key) && leaf in nodes && |PathTo(r.key)| >= 2
      requires leaf.cell == var l := RadixTree.Search(tree, r.key); Outer(l.key, l.root, l.chain)
      requires leaf.up in nodes && leaf.up.cell.Inner? && leaf.up.cell.b == ParentIndex(tree, -1, r.key)
      requires IsSentinel(r.key) || exists q :: q in Routes(tree) && q.key == r.key
      modifies this`tree, this`nodes, this`pairs, nodes`cell
      ensures ok <==> AddDup(old(tree), -1, r).Some?
      ensures tree == if ok then AddDup(old(tree), -1, r).value else old(tree)
      ensures Stands() && nodes == (if ok then old(nodes) + {n} else old(nodes))
      ensures pairs == if ok then old(pairs)[r := n] else old(pairs)
      ensures Lent(if ok then old(Routes(tree)) + {r} else old(Routes(tree)), pairs, Inners())
    {
      hide Rep, Nodes, Path, Wf, Head, Grows, Nets, Routes, AddDup, Internal, IsSentinel, Own;
      ghost var s := Routes(tree);
      OwnKeys(s, pairs, Inners());
      ok := AddDuplicate(r, leaf);
      if !ok { return; }
      Reserve(n);
      LentSpare(s, r, n);
      pairs := pairs[r := n];
    }

    /** A pair whose internal node the tree does not use. */
    lemma LentSpare(s: set<Route>, r: Route, n: RNode)
      requires Stands() && Lent(s, pairs, Inners()) && r !in s && (IsSentinel(r.key) || exists q :: q in s && q.key == r.key)
      requires n in nodes && !n.active && n !in InUse() && n !in pairs.Values
      ensures Lent(s + {r}, pairs[r := n], Inners())
    {
      TopIn();
      OwnSpare(s, pairs, Inners(), r, n);
      hide Own, Internal, Nodes;
    }

    method JoinNew(r: Route, leaf: RNode, n: RNode)
      requires Valid() && RouteOk(r, w) && leaf in nodes && n !in nodes && r !in Routes(tree)
      requires leaf.cell == var l := RadixTree.Search(tree, r.key); Outer(l.key, l.root, l.chain)
      requires leaf.cell.key != r.key && |leaf.cell.key| == w
      requires !IsSentinel(r.key) && forall q :: q in Routes(tree) ==> q.key != r.key
      modifies this`tree, this`nodes, this`pairs, nodes`cell, nodes`up, n
      ensures tree == NewPair(old(tree), -1, r, FirstDiff(old(leaf.cell.key), r.key))
      ensures Stands() && n in nodes && old(nodes) <= nodes && fresh(nodes - old(nodes) - {n})
      ensures pairs == old(pairs)[r := n]
      ensures Lent(old(Routes(tree)) + {r}, pairs, Inners())
    {
      hide Rep, Nodes, Path, Wf, Head, Grows, Nets, Routes, NewPair, Own, Internal, IsSentinel, RouteOk;
      ghost var s, inner := Routes(tree), Inners();
      OwnKeys(s, pairs, inner);
      AddNew(r, leaf, n);
      OwnNew(s, pairs, inner, r, n);
      pairs := pairs[r := n];
    }

    /** The internal node of a duplicate's pair is not used for now. */
    method Reserve(n: RNode)
      requires Stands() && n !in nodes
      modifies this`nodes
      ensures Rep(Cells(), Parents(), top, top, tree) && nodes == old(nodes) + {n}
      ensures InUse() == old(InUse()) && Inners() == old(Inners())
    {
      ghost var m, u := Cells(), Parents();
      nodes := nodes + {n};
      Frame(m, u, Cells(), Parents(), top, top, tree);
    }

    /** The key is there already: attach to its chain, unless the mask is there too. */
    method AddDuplicate(r: Route, leaf: RNode) returns (ok: bool)
      requires Sound() && leaf == LeafAt(Cells(), top, tree, r.key) && leaf in nodes && |PathTo(r.key)| >= 2
      requires leaf.cell == var l := RadixTree.Search(tree, r.key); Outer(l.key, l.root, l.chain)
      requires leaf.up in nodes && leaf.up.cell.Inner? && leaf.up.cell.b == ParentIndex(tree, -1, r.key)
      modifies this`tree, nodes`cell
      ensures ok <==> AddDup(old(tree), -1, r).Some?
      ensures tree == if ok then AddDup(old(tree), -1, r).value else old(tree)
      ensures Stands()
      ensures InUse() == old(InUse()) && Inners() == old(Inners())
    {
      hide Rep, Nodes, Path, Wf, Head, SetChain, AddDup, ChainAdd, Internal;
      AddDupSteps(tree, -1, r);
      if leaf.cell.root && r.mask.Host? { return false; }
      var c := ChainAdd(leaf.cell.chain, Entry(r, IsLifted(r, leaf.up.cell.b)));
      if c.None? { return false; }
      ghost var m, u := Cells(), Parents();
      assert m[leaf] == leaf.cell;
      SetChainRep(m, u, top, top, tree, r.key, c.value);
      InternalRewritten(m, InUse(), leaf, leaf.cell.(chain := c.value));
      SetChainFacts(tree, -1, r.key, c.value);
      SetChainNode(tree, r.key, c.value);
      Write(leaf, leaf.cell.(chain := c.value));
      tree := SetChain(tree, r.key, c.value);
      LiftRoute(leaf, r);
      ok := true;
    }

    /** The key is new: a pair of nodes, promotion and lifting. */
    method AddNew(r: Route, leaf: RNode, n: RNode)
      requires Sound() && RouteOk(r, w) && leaf in nodes && n !in nodes
      requires leaf.cell == var l := RadixTree.Search(tree, r.key); Outer(l.key, l.root, l.chain)
      requires leaf.cell.key != r.key && |leaf.cell.key| == w
      modifies this`tree, this`nodes, nodes`cell, nodes`up, n
      ensures tree == NewPair(old(tree), -1, r, FirstDiff(old(leaf.cell.key), r.key)) && n.active
      ensures n in nodes && old(nodes) <= nodes && fresh(nodes - old(nodes) - {n})
      ensures Stands()
      ensures Inners() == old(Inners()) + {n} && fresh(InUse() - old(InUse()) - {n})
    {
      hide Rep, Nodes, Path, Wf, Pair, NewPair, Lift, Grows, Nets, Internal;
      var d := FirstDiff(leaf.cell.key, r.key);
      NewPairSteps(tree, -1, r, d);
      DiffersBelowTop(tree, w, r.key);
      NewPairFacts(tree, w, r, d);
      UnliftedFacts(Pair(tree, r, d), -1, r);
      var tt := InsertPair(r, d, n);
      ParentIs(Cells(), Parents(), top, top, tree, -1, r.key);
      LiftRoute(tt, r);
    }

    /** "Delete our route from mask lists". */
    method Unannotate(leaf: RNode, r: Route, lifted: bool)
      requires Shaped() && leaf == LeafAt(Cells(), top, tree, r.key) && |PathTo(r.key)| >= 2 && leaf in nodes
      requires lifted ==> r.mask.Net?
      requires !lifted && r.mask.Net? ==> r.mask.len > ParentIndex(tree, -1, r.key)
      modifies this`tree, nodes`cell
      ensures tree == Unlift(old(tree), -1, r)
      ensures Stands()
      ensures LeafAt(Cells(), top, tree, r.key) == leaf && leaf.cell == old(leaf.cell)
      ensures InUse() == old(InUse()) && Inners() == old(Inners())
    {
      hide Rep, Nodes, Path, Unlift, Cells, Parents, Grows, Nets, Internal;
      ghost var m, u := Cells(), Parents();
      ParentIs(m, u, top, top, tree, -1, r.key);
      OnPathFacts(r.key, |PathTo(r.key)| - 2);
      InCells(leaf);
      InCells(leaf.up);
      UnliftShape(tree, -1, r);
      if !lifted || r.mask.len > leaf.up.cell.b {
        NotLifted(tree, -1, r);
        return;
      }
      var x; ghost var i;
      x, i := Climb(leaf, r);
      InCells(x);
      UnliftRep(m, u, top, top, tree, -1, r, i);
      PathLinks(m, u, top, top, tree, r.key);
      PathAlike(m, SetMk(m, x, MkRemove(x.cell.mk, r)), top, tree, -1, r);
      InternalRewritten(m, InUse(), x, x.cell.(mk := MkRemove(x.cell.mk, r)));
      Write(x, x.cell.(mk := MkRemove(x.cell.mk, r)));
      tree := Unlift(tree, -1, r);
    }

    /** The chain of the leaf changes. */
    method Rechain(leaf: RNode, v: Key, c: seq<Entry>)
      requires Stands()
      requires leaf == LeafAt(Cells(), top, tree, v) && leaf in nodes && leaf.cell.Outer?
      modifies this`tree, leaf`cell
      ensures tree == SetChain(old(tree), v, c) && leaf.cell == old(leaf.cell).(chain := c)
      ensures Stands()
      ensures InUse() == old(InUse()) && Inners() == old(Inners())
    {
      hide Rep, Nodes, Path, SetChain, Internal;
      ghost var m, u := Cells(), Parents();
      InCells(leaf);
      SetChainRep(m, u, top, top, tree, v, c);
      SetChainNode(tree, v, c);
      InternalRewritten(m, InUse(), leaf, leaf.cell.(chain := c));
      Write(leaf, leaf.cell.(chain := c));
      tree := SetChain(tree, v, c);
    }

    /** The leaf's parent goes; the sibling takes its place and its annotations. */
    method SpliceOut(leaf: RNode, v: Key)
      requires Stands() && Sub(tree, v).Node?
      requires leaf == LeafAt(Cells(), top, tree, v) && leaf in nodes
      modifies this`tree, nodes`cell, nodes`up
      ensures tree == Splice(old(tree), v) && tree.Node?
      ensures Stands()
      ensures old(leaf.up) in old(Inners()) && leaf.up == old(leaf.up)
      ensures InUse() == old(InUse()) - {leaf, leaf.up} && Inners() == old(Inners()) - {leaf.up}
    {
      hide Rep, Nodes, Path, Splice, Internal, Spliced;
      ghost var m, u := Cells(), Parents();
      SpliceAll(m, u, top, tree, v);
      InCells(leaf);
      InCells(leaf.up);
      Unhook(leaf, v);
      tree := Splice(tree, v);
    }

    /** The links of the parent of the leaf are passed by. */
    method Unhook(leaf: RNode, v: Key)
      requires {leaf, leaf.up, leaf.up.up} <= nodes && leaf.up.cell.Inner? && leaf.up.up.cell.Inner?
      requires var x := Sibling(leaf.up.cell, v); x in nodes && x != leaf.up.up && x != leaf
      modifies nodes`cell, nodes`up
      ensures leaf in old(Parents()) && leaf.up == old(leaf.up) && leaf.up in old(Cells()) && old(leaf.up.up) in old(Cells())
      ensures Sibling(old(leaf.up.cell), v) in old(Cells())
      ensures var t := leaf.up;
              var p, x := old(t.up), Sibling(old(t.cell), v);
              && Cells() == Spliced(old(Cells()), p, t, x, v) && Parents() == old(Parents())[x := p]
    {
      var t := leaf.up;
      var p, x := t.up, Sibling(t.cell, v);
      InCells(leaf);
      InCells(t);
      InCells(p);
      InCells(x);
      hide Cells, Parents, Relink, DemoteCell;
      var mk := t.cell.mk;
      Write(p, Relink(p.cell, v, x));
      SetUp(x, p);
      Write(x, DemoteCell(x.cell, mk));
    }

    /**
     squid_rn_delete: None is its NULL return, otherwise the route that was removed. The internal node of its
     pair is no longer among the nodes, so that the caller may free it.
     */
    method Delete(key: Key, mask: Mask) returns (gone: Option<Route>)
      requires Valid() && |key| == w
      modifies this`tree, this`nodes, this`pairs, nodes
      ensures Valid()
      ensures gone.None? ==> tree == old(tree) && pairs == old(pairs) && nodes == old(nodes)
      ensures gone.None? <==> RadixDelete.Delete(old(tree), key, mask).None?
      ensures gone.Some? ==> RadixDelete.Delete(old(tree), key, mask) == Option.Some((tree, gone.value))
      ensures gone.Some? ==> gone.value in old(pairs) && pairs == old(pairs) - {gone.value} && nodes == old(nodes) - {old(pairs[gone.value])}
      ensures Routes(tree) == ApplyToSet(old(Routes(tree)), Del(key, mask), w)
    {
      hide Rep, Nodes, Path, Wf, Grows, Nets, Head, DropDup, DropLeaf, RadixDelete.Delete, Own, Internal, IsSentinel, Routes;
      DeleteOk(tree, w, key, mask);
      DeleteApplies(tree, w, key, mask);
      DeleteCases(tree, key, mask);
      var leaf := Search(key);
      if leaf.cell.key != key { return None; }
      var f := if mask.Net? then FindMask(leaf.cell.chain, mask)
               else if leaf.cell.root || leaf.cell.chain == [] then Miss else Hit(leaf.cell.chain[0].route);
      if !f.Hit? { return None; }
      var r := f.route;
      VictimEntry(tree, w, key, mask, r);
      FreeRoute(leaf, r);
      HeadFacts(tree, w);
      gone := Some(r);
    }

    /** "Eliminate us from tree". */
    method FreeRoute(leaf: RNode, r: Route)
      requires Valid() && |r.key| == w && r in Routes(tree)
      requires leaf == LeafAt(Cells(), top, tree, r.key) && leaf in nodes && |PathTo(r.key)| >= 2
      requires leaf.cell == var l := RadixTree.Search(tree, r.key); Outer(l.key, l.root, l.chain)
      requires exists i :: 0 <= i < |leaf.cell.chain| && leaf.cell.chain[i].route == r
      requires forall e <- leaf.cell.chain :: e.route == r ==> (e.lifted <==> r.mask.Net? && r.mask.len <= ParentIndex(tree, -1, r.key))
      modifies this`tree, this`nodes, this`pairs, nodes
      ensures var l := RadixTree.Search(old(tree), r.key);
              tree == if l.root || |l.chain| > 1 then DropDup(old(tree), -1, r) else DropLeaf(old(tree), -1, r)
      ensures Stands() && Lent(old(Routes(tree)) - {r}, pairs, Inners())
      ensures r in old(pairs) && pairs == old(pairs) - {r} && nodes == old(nodes) - {old(pairs[r])}
    {
      hide Rep, Nodes, Path, Wf, Grows, Nets, Head, DropDup, DropLeaf, Routes, Own, Internal, IsSentinel;
      ghost var s, inner := Routes(tree), Inners();
      KeyRoutes(tree, w, r);
      OwnKeys(s, pairs, inner);
      var last := !leaf.cell.root && |leaf.cell.chain| <= 1;
      RemoveRoute(leaf, r);
      if last { FreeLast(leaf, r, s, inner); } else { FreeDuplicate(leaf, r, s); }
    }

    /** "*t = *x": the internal node a, which the tree uses, is copied to b, which it does not. */
    method Relocate(a: RNode, b: RNode)
      requires Stands() && a in Inners() && b in nodes && b !in InUse()
      modifies nodes`cell, nodes`up, b`active
      ensures Stands() && b.active == old(a.active)
      ensures InUse() == old(InUse()) - {a} + {b} && Inners() == old(Inners()) - {a} + {b}
    {
      ghost var m, u, ns := Cells(), Parents(), InUse();
      TopIn();
      InCells(a);
      assert m[a].Inner? && a in ns && a != top;
      hide Rep, Nodes, Internal, Moved, MovedUps;
      MoveRep(m, u, top, top, tree, a, b);
      ParentWithin(m, u, top, top, tree, a);
      ChildrenWithin(m, u, top, top, tree, a);
      InternalMoved(m, u, ns, a, b);
      Copy(a, b);
    }

    method Copy(a: RNode, b: RNode)
      requires a in nodes && b in nodes && a.up in nodes && a.up != b && a.cell.Inner? && a.up.cell.Inner?
      requires a.cell.left in nodes && a.cell.right in nodes
      modifies nodes`cell, nodes`up, b`active
      ensures a in old(Cells()) && a in old(Parents()) && b.active == old(a.active)
      ensures old(a.up) in old(Cells()) && Cells() == Moved(old(Cells()), old(Parents()), a, b)
      ensures Parents() == MovedUps(old(Cells()), old(Parents()), a, b)
    {
      InCells(a);
      var p, c := a.up, a.cell;
      InCells(p);
      hide Cells, Parents, Turn;
      assert Moved(Cells(), Parents(), a, b) == Cells()[b := c][p := Turn(p.cell, a, b)];
      Write(b, c);
      SetUp(b, p);
      b.active := a.active;
      assert p.cell == old(p.cell);
      Write(p, Turn(p.cell, a, b));
      SetUp(c.left, b);
      SetUp(c.right, b);
    }

    /** The internal node x of the pair of r, which the tree does not use, leaves the head; the routes s stay. */
    method Drop(r: Route, x: RNode, ghost s: set<Route>)
      requires Stands() && r in pairs && pairs[r] == x && x !in InUse()
      requires Lent(s, pairs - {r}, Inners()) && x !in (pairs - {r}).Values
      modifies this`nodes, this`pairs, x`active
      ensures Stands() && Lent(s, pairs, Inners())
      ensures pairs == old(pairs) - {r} && nodes == old(nodes) - {x}
    {
      hide Own;
      ghost var m, u := Cells(), Parents();
      x.active := false;
      nodes := nodes - {x};
      pairs := pairs - {r};
      Frame(m, u, Cells(), Parents(), top, top, tree);
      assert Inners() == old(Inners());
    }

    /** One route of several: if its internal node is in use, the first of the others takes over. */
    method FreeDuplicate(leaf: RNode, r: Route, ghost s: set<Route>)
      requires Stands() && Lent(s, pairs, Inners()) && r in s && leaf.cell.Outer?
      requires !IsSentinel(r.key) ==>
                 leaf.cell.chain != [] && var q := leaf.cell.chain[0].route; q in s && q != r && q.key == r.key
      modifies this`nodes, this`pairs, nodes
      ensures Stands() && Lent(s - {r}, pairs, Inners())
      ensures r in old(pairs) && pairs == old(pairs) - {r} && nodes == old(nodes) - {old(pairs[r])}
    {
      hide Rep, Nodes, Internal, Own, IsSentinel;
      ghost var inner := Inners();
      OwnKeys(s, pairs, inner);
      var x := pairs[r];
      OwnWithout(pairs, r);
      if x.active {
        OwnInUse(s, pairs, inner, r);
        var q := leaf.cell.chain[0].route;
        OwnHandOver(s, pairs, inner, r, q);
        Relocate(x, pairs[q]);
      } else {
        OwnDrop(s, pairs, inner, r);
      }
      Drop(r, x, s - {r});
    }

    /** The last route of its key: its internal node may be in use elsewhere; then the node spliced out takes over. */
    method FreeLast(leaf: RNode, r: Route, ghost s: set<Route>, ghost inner: set<RNode>)
      requires Stands() && Lent(s, pairs, inner) && r in s && !IsSentinel(r.key) && forall q :: q in s && q.key == r.key ==> q == r
      requires leaf.up in inner && leaf.up !in InUse() && Inners() == inner - {leaf.up}
      modifies this`nodes, this`pairs, nodes
      ensures Stands() && Lent(s - {r}, pairs, Inners())
      ensures r in old(pairs) && pairs == old(pairs) - {r} && nodes == old(nodes) - {old(pairs[r])}
    {
      hide Rep, Nodes, Internal, Own, IsSentinel;
      OwnKeys(s, pairs, inner);
      OwnLast(s, pairs, inner, r);
      OwnWithout(pairs, r);
      var x, t := pairs[r], leaf.up;
      if t != x {
        Relocate(x, t);
        assert Inners() == inner - {x};
      }
      Drop(r, x, s - {r});
    }

    /** Take the route off the lists, then off its chain, or its leaf out of the tree. */
    method RemoveRoute(leaf: RNode, r: Route)
      requires Sound() && |r.key| == w && leaf == LeafAt(Cells(), top, tree, r.key) && leaf in nodes && |PathTo(r.key)| >= 2
      requires leaf.cell == var l := RadixTree.Search(tree, r.key); Outer(l.key, l.root, l.chain)
      requires exists i :: 0 <= i < |leaf.cell.chain| && leaf.cell.chain[i].route == r
      requires forall e <- leaf.cell.chain :: e.route == r ==> (e.lifted <==> r.mask.Net? && r.mask.len <= ParentIndex(tree, -1, r.key))
      modifies this`tree, nodes`cell, nodes`up
      ensures var l := RadixTree.Search(old(tree), r.key);
              tree == if l.root || |l.chain| > 1 then DropDup(old(tree), -1, r) else DropLeaf(old(tree), -1, r)
      ensures Stands()
      ensures var l := RadixTree.Search(old(tree), r.key);
              if l.root || |l.chain| > 1
              then InUse() == old(InUse()) && Inners() == old(Inners()) && leaf.cell == Outer(l.key, l.root, ChainRemove(l.chain, r))
              else InUse() == old(InUse()) - {leaf, leaf.up} && Inners() == old(Inners()) - {leaf.up} && leaf.up in old(Inners())
    {
      hide Rep, Nodes, Path, Wf, Grows, Nets, Head, Splice, Unlift, SetChain, DropDup, DropLeaf;
      ghost var was := tree;
      var c := leaf.cell;
      ghost var l := RadixTree.Search(tree, r.key);
      var e := FindEntry(c.chain, r);
      UnliftShape(was, -1, r);
      Unannotate(leaf, r, e.lifted);
      if c.root || |c.chain| > 1 {
        DropDupSteps(was, -1, r);
        Rechain(leaf, r.key, ChainRemove(c.chain, r));
      } else {
        DropLeafSteps(was, -1, r);
        NotUnderTop(was, w, r.key);
        SpliceOut(leaf, r.key);
      }
    }

    /** squid_rn_search_m under the mask of the default route: to the left all the way. */
    method SearchLeft(x: RNode, ghost t: Tree) returns (y: RNode)
      requires x in nodes && RepAt(Cells(), Parents(), x, t) && Nodes(Cells(), x, t) <= nodes
      ensures y in nodes && y.cell == Outer(Leftmost(t).key, Leftmost(t).root, Leftmost(t).chain)
    {
      ghost var m, u := Cells(), Parents();
      ghost var s := t;
      y := x;
      while y.cell.Inner?
        invariant y in nodes && RepAt(m, u, y, s) && Nodes(m, y, s) <= nodes && Leftmost(s) == Leftmost(t)
        decreases s
      {
        assert m[y] == y.cell;
        ghost var z := m[y].left;
        assert Rep(m, u, z, y, s.left) && z in Nodes(m, z, s.left) && Nodes(m, z, s.left) <= Nodes(m, y, s);
        s := s.left;
        y := y.cell.left;
      }
      assert m[y] == y.cell;
    }

    /** The annotations of one ancestor, in order. */
    method MatchMasks(x: RNode, ghost t: Tree, v: Key, d: nat) returns (f: Found)
      requires x in nodes && t.Node? && RepAt(Cells(), Parents(), x, t) && Nodes(Cells(), x, t) <= nodes
      ensures f == MkMatch(t, t.mk, v, d)
    {
      assert Cells()[x] == x.cell;
      var mk := x.cell.mk;
      var i := 0;
      assert mk[0..] == mk;
      while i < |mk|
        invariant 0 <= i <= |mk| && MkMatch(t, mk, v, d) == MkMatch(t, mk[i..], v, d)
      {
        assert mk[i..][1..] == mk[i + 1..];
        if mk[i].mask.Net? && mk[i].mask.len > 0 {
          if mk[i].mask.len <= d { return Hit(mk[i]); }
        } else {
          var y := SearchLeft(x, t);
          var g := FindMask(y.cell.chain, mk[i].mask);
          if g.Hit? && SatisfiesLeaf(v, g.route) { return g; }
        }
        i := i + 1;
      }
      return Miss;
    }

    /** What squid_rn_match does at the leaf: exact comparison, then the duplicate-key chain. */
    method MatchAtLeaf(leaf: RNode, v: Key) returns (f: Found)
      requires leaf.cell.Outer? && |leaf.cell.key| == |v| && (leaf.cell.root || leaf.cell.chain != [])
      ensures f == MatchLeaf(Leaf(leaf.cell.key, leaf.cell.root, leaf.cell.chain), v)
    {
      var c := leaf.cell;
      var d := FirstDiff(c.key, v);
      var head := if c.root then Host else c.chain[0].route.mask;
      if CompareLimit(head, |v|) <= d {
        return if c.chain == [] then Sentinel else Hit(c.chain[0].route);
      }
      var chain := if c.root || c.chain[0].route.mask.Net? then c.chain else c.chain[1..];
      var i := 0;
      assert chain[0..] == chain;
      while i < |chain|
        invariant 0 <= i <= |chain| && ChainMatch(chain, v, d) == ChainMatch(chain[i..], v, d)
      {
        var r := chain[i].route;
        assert chain[i..][1..] == chain[i + 1..];
        if r.mask.Net? && (if r.mask.len > 0 then r.mask.len <= d else SatisfiesLeaf(v, r)) { return Hit(r); }
        i := i + 1;
      }
      return Miss;
    }

    /** squid_rn_match: down to a leaf, then up along the parent links. */
    method Match(v: Key) returns (f: Found)
      requires Valid() && |v| == w
      ensures f.Hit? ==> Longest(Routes(tree), v, f.route)
      ensures f.Miss? ==> NoneMatches(Routes(tree), v)
      ensures f.Sentinel? <==> IsSentinel(v) && forall q :: q in Routes(tree) ==> q.key != v
    {
      hide Rep, Nodes, Path, Wf, Head, MatchUp, MkMatch, MatchLeaf, Trees, OnPath, Longest, NoneMatches, Routes, IsSentinel, Grows, Nets, Cells, Parents;
      MatchIsLongest(tree, w, v);
      ghost var m, u, s, ts := Cells(), Parents(), PathTo(v), Trees(tree, v);
      TreesOnPath(m, u, top, top, tree, v);
      TreesFacts(tree, v);
      TopOnce(m, u, top, top, tree, v);
      var leaf := Search(v);
      f := MatchAtLeaf(leaf, v);
      var d := FirstDiff(leaf.cell.key, v);
      var t := leaf;
      ghost var i := |s| - 1;
      while f == Miss && t != top
        invariant 0 <= i < |s| && t == s[i] && t in nodes && f == MatchUp(ts[i], v)
        decreases i
      {
        Ascend(v, i);
        t := t.up;
        i := i - 1;
        assert TreeAt(m, u, s, ts, i, Nodes(m, top, tree));
        MatchStep(ts, tree, v, i);
        f := MatchMasks(t, ts[i], v, d);
      }
      FoundAbove(ts, tree, v, i);
    }

    /** The parent link of a node on a path leads to the node before it. */
    lemma Ascend(v: Key, i: nat)
      requires Shaped() && i < |PathTo(v)| && PathTo(v)[i] != top
      ensures i > 0 && PathTo(v)[i] in nodes && PathTo(v)[i].up == PathTo(v)[i - 1] && PathTo(v)[i - 1] in nodes
    {
      var m, u, s := Cells(), Parents(), PathTo(v);
      PathLinks(m, u, top, top, tree, v);
      assert LinkedAt(m, u, s, i - 1, v) && s[i] in s && s[i - 1] in s;
    }
  }

  /** A key is in the tree if it has a route or is a sentinel. */
  lemma KeyKnown(t: Tree, w: nat, v: Key)
    requires Head(t, w) && |v| == w
    ensures RadixTree.Search(t, v).key == v <==> IsSentinel(v) || exists q :: q in Routes(t) && q.key == v
  {
    var l := RadixTree.Search(t, v);
    SearchedRoot(t, w, -1, v);
    SearchedRoutes(t, v);
    LeafWf(t, w, -1, v);
    NotAllBits(v);
    if l.key != v {
      NoRouteHere(t, w, v);
    } else if !l.root {
      assert EntryOk(l.chain[0], v, ParentIndex(t, -1, v)) && l.chain[0].route in Routes(l);
    }
  }

  /** The routes of one key. */
  lemma KeyRoutes(t: Tree, w: nat, r: Route)
    requires Head(t, w) && r in Routes(t) && |r.key| == w
    ensures var l := RadixTree.Search(t, r.key);
            var c := ChainRemove(l.chain, r);
            && (l.root <==> IsSentinel(r.key))
            && (!l.root && |l.chain| <= 1 ==> forall q :: q in Routes(t) && q.key == r.key ==> q == r)
            && (!l.root && |l.chain| > 1 ==> c != [] && c[0].route in Routes(t) && c[0].route != r && c[0].route.key == r.key)
  {
    var l := RadixTree.Search(t, r.key);
    RouteIsSearched(t, w, -1, r);
    SearchedRoot(t, w, -1, r.key);
    SearchedRoutes(t, r.key);
    LeafWf(t, w, -1, r.key);
    forall q | q in Routes(t) && q.key == r.key ensures q in Routes(l) { RouteIsSearched(t, w, -1, q); }
    NotAllBits(r.key);
    var k := ChainRemoveAt(l.chain, r);
  }

  ghost predicate RepAt(m: Mem, u: Ups, x: RNode, t: Tree) {
    x in u && Rep(m, u, x, u[x], t)
  }

  /** The subtrees on the way to the leaf of v. */
  ghost function Trees(t: Tree, v: Key): (s: seq<Tree>)
    ensures s != [] && s[0] == t
  {
    if t.Leaf? then [t] else [t] + Trees(Sub(t, v), v)
  }

  ghost predicate TreeAt(m: Mem, u: Ups, s: seq<RNode>, ts: seq<Tree>, i: int, ns: set<RNode>) {
    0 <= i < |s| && i < |ts| ==> RepAt(m, u, s[i], ts[i]) && Nodes(m, s[i], ts[i]) <= ns
  }

  lemma {:induction false} TreesOnPath(m: Mem, u: Ups, x: RNode, p: RNode, t: Tree, v: Key)
    requires Rep(m, u, x, p, t)
    ensures var s, ts := Path(m, x, t, v), Trees(t, v);
            |s| == |ts| && forall i {:trigger TreeAt(m, u, s, ts, i, Nodes(m, x, t))} :: TreeAt(m, u, s, ts, i, Nodes(m, x, t))
    decreases t
  {
    if t.Node? {
      var y, sub := Child(m[x], v), Sub(t, v);
      TreesOnPath(m, u, y, x, sub, v);
      var s, ts := Path(m, x, t, v), Trees(t, v);
      forall i ensures TreeAt(m, u, s, ts, i, Nodes(m, x, t)) {
        assert TreeAt(m, u, Path(m, y, sub, v), Trees(sub, v), i - 1, Nodes(m, y, sub));
      }
    }
  }

  lemma {:induction false} TreesEnd(t: Tree, v: Key)
    ensures var ts := Trees(t, v);
            && ts[|ts| - 1] == RadixTree.Search(t, v)
            && (forall i :: 0 <= i < |ts| ==> RadixTree.Search(ts[i], v) == RadixTree.Search(t, v))
            && (forall i :: 0 <= i < |ts| - 1 ==> ts[i].Node? && ts[i + 1] == Sub(ts[i], v))
    decreases t
  {
    if t.Node? {
      TreesEnd(Sub(t, v), v);
      var ts, rest := Trees(t, v), Trees(Sub(t, v), v);
      assert ts == [t] + rest;
      forall i | 0 <= i < |ts| ensures RadixTree.Search(ts[i], v) == RadixTree.Search(t, v) {
        assert i > 0 ==> ts[i] == rest[i - 1];
      }
      forall i | 0 <= i < |ts| - 1 ensures ts[i].Node? && ts[i + 1] == Sub(ts[i], v) {
        assert i > 0 ==> ts[i] == rest[i - 1] && ts[i + 1] == rest[i];
      }
    }
  }

  lemma TreesFacts(t: Tree, v: Key)
    requires var leaf := RadixTree.Search(t, v); |leaf.key| == |v| && (leaf.root || leaf.chain != [])
    ensures OnPath(Trees(t, v), t, v)
    ensures var ts, leaf := Trees(t, v), RadixTree.Search(t, v); ts[|ts| - 1] == leaf && MatchUp(leaf, v) == MatchLeaf(leaf, v)
  {
    TreesEnd(t, v);
  }

  /** One step up: the result of an ancestor, given that there was none below. */
  lemma MatchStep(ts: seq<Tree>, top: Tree, v: Key, i: nat)
    requires OnPath(ts, top, v) && i < |ts| - 1 && MatchUp(ts[i + 1], v) == Miss
    ensures ts[i].Node? && MatchUp(ts[i], v) == MkMatch(ts[i], ts[i].mk, v, FirstDiff(RadixTree.Search(top, v).key, v))
  {}

  /** The first node of a path does not come again. */
  lemma TopOnce(m: Mem, u: Ups, x: RNode, p: RNode, t: Tree, v: Key)
    requires Rep(m, u, x, p, t)
    ensures forall j :: 0 < j < |Path(m, x, t, v)| ==> Path(m, x, t, v)[j] != x
  {
    if t.Node? {
      var y, sub := Child(m[x], v), Sub(t, v);
      PathLinks(m, u, y, x, sub, v);
      var s, rest := Path(m, x, t, v), Path(m, y, sub, v);
      forall j | 0 < j < |s| ensures s[j] != x {
        assert s[j] == rest[j - 1] && rest[j - 1] in rest;
      }
    }
  }

  lemma DeleteApplies(t: Tree, w: nat, key: Key, m: Mask)
    requires Head(t, w) && |key| == w
    ensures var c := RadixDelete.Delete(t, key, m);
            ApplyToSet(Routes(t), Del(key, m), w) == Routes(if c.None? then t else c.value.0)
  {
    ApplyOk(t, w, Del(key, m));
  }

  lemma AddApplies(s: set<Route>, r: Route, w: nat, ok: bool)
    requires ok <==> r !in s && !(IsSentinel(r.key) && r.mask.Host?)
    ensures ApplyToSet(s, Add(r), w) == if ok then s + {r} else s
  {}

  /** A whole run on a new head; the routes stored are those a plain set would hold. */
  method Run(width: nat, ops: seq<Op>) returns (h: RadixTop)
    requires 0 < width && forall i :: 0 <= i < |ops| ==> OpOk(ops[i], width)
    ensures h.Valid() && h.w == width && Routes(h.tree) == RunSet({}, width, ops)
  {
    h := new RadixTop(width);
    var i := 0;
    assert ops[0..] == ops;
    while i < |ops|
      invariant 0 <= i <= |ops| && h.Valid() && h.w == width && fresh(h) && fresh(h.nodes)
      invariant RunSet(Routes(h.tree), width, ops[i..]) == RunSet({}, width, ops)
    {
      hide RadixTop.Valid, Routes, ApplyToSet, RunSet;
      RunSetStep(Routes(h.tree), width, ops, i);
      Perform(h, ops[i]);
      i := i + 1;
    }
  }

  /** One operation; a pair of nodes is allocated for every route added. */
  method Perform(h: RadixTop, op: Op)
    requires h.Valid() && OpOk(op, h.w)
    modifies h`tree, h`nodes, h`pairs, h.nodes
    ensures h.Valid() && fresh(h.nodes - old(h.nodes))
    ensures Routes(h.tree) == ApplyToSet(old(Routes(h.tree)), op, h.w)
  {
    hide RadixTop.Valid, Routes, ApplyToSet;
    match op {
      case Add(r) =>
        ghost var s := Routes(h.tree);
        var n := new RNode(Outer([], false, []), false);
        var ok := h.AddRoute(r, n);
        AddApplies(s, r, h.w, ok);
      case Del(key, mask) =>
        var gone := h.Delete(key, mask);
    }
  }

  lemma RunSetStep(s: set<Route>, w: nat, ops: seq<Op>, i: nat)
    requires i < |ops|
    ensures RunSet(s, w, ops[i..]) == RunSet(ApplyToSet(s, ops[i], w), w, ops[i + 1..])
  {
    assert ops[i..][1..] == ops[i + 1..];
  }

  lemma DeleteCases(t: Tree, key: Key, m: Mask)
    requires t.Node?
    ensures var leaf := RadixTree.Search(t, key);
            var f := Victim(leaf, m);
            RadixDelete.Delete(t, key, m) ==
              if leaf.key != key || !f.Hit? then Option.None
              else Option.Some((if leaf.root || |leaf.chain| > 1 then DropDup(t, -1, f.route) else DropLeaf(t, -1, f.route), f.route))
  {}

  lemma {:induction false} FindMaskIn(chain: seq<Entry>, m: Mask)
    requires FindMask(chain, m).Hit?
    ensures exists i :: 0 <= i < |chain| && chain[i].route == FindMask(chain, m).route
  {
    if chain[0].route.mask != m {
      FindMaskIn(chain[1..], m);
      var i :| 0 <= i < |chain[1..]| && chain[1..][i].route == FindMask(chain[1..], m).route;
      assert chain[i + 1].route == FindMask(chain, m).route;
    }
  }

  lemma VictimEntry(t: Tree, w: nat, key: Key, m: Mask, r: Route)
    requires Head(t, w) && Victim(RadixTree.Search(t, key), m) == Hit(r) && RadixTree.Search(t, key).key == key
    ensures var c := RadixTree.Search(t, key).chain;
            && r.key == key && (exists i :: 0 <= i < |c| && c[i].route == r)
            && forall e <- c :: e.route == r ==> (e.lifted <==> r.mask.Net? && r.mask.len <= ParentIndex(t, -1, key))
  {
    LeafWf(t, w, -1, key);
    var leaf := RadixTree.Search(t, key);
    if m.Net? { FindMaskIn(leaf.chain, m); }
  }

  lemma HeadFacts(t: Tree, w: nat)
    requires Head(t, w)
    ensures t.Node? && Grows(t, -1) && Nets(t)
  {
    WfFacts(t, w, -1);
  }

  /** The leaf a search reaches is well formed below its parent's index. */
  lemma {:induction false} LeafWf(t: Tree, w: nat, lo: int, v: Key)
    requires Wf(t, w, lo)
    ensures LeafOk(RadixTree.Search(t, v), w, ParentIndex(t, lo, v))
    decreases t
  {
    if t.Node? { LeafWf(Sub(t, v), w, t.b, v); }
  }

  /** Only the sentinel leaves can be children of the top node. */
  lemma NotUnderTop(t: Tree, w: nat, v: Key)
    requires Head(t, w) && |v| == w && !RadixTree.Search(t, v).root
    ensures Sub(t, v).Node?
  {
    LeafWf(t, w, -1, v);
    var k := Seq(w, GoesRight(0, v));
    assert RadixTree.Search(t, k) == RadixTree.Search(Sub(t, v), k);
    if Sub(t, v).Leaf? {
      assert RadixTree.Search(t, v).key == k;
      NotAllBits(k);
    }
  }

  lemma {:induction false} UnliftShape(t: Tree, lo: int, r: Route)
    ensures RadixTree.Search(Unlift(t, lo, r), r.key) == RadixTree.Search(t, r.key)
    ensures t.Node? <==> Unlift(t, lo, r).Node?
    ensures t.Node? ==> Unlift(t, lo, r).b == t.b && (Sub(t, r.key).Node? <==> Sub(Unlift(t, lo, r), r.key).Node?)
    decreases t
  {
    if t.Node? { UnliftShape(Sub(t, r.key), t.b, r); }
  }

  /** The entry of a chain for a route. */
  function FindEntry(chain: seq<Entry>, r: Route): (e: Entry)
    requires exists i :: 0 <= i < |chain| && chain[i].route == r
    ensures e in chain && e.route == r
  {
    if chain[0].route == r then chain[0] else FindEntry(chain[1..], r)
  }

  lemma Commute(u: Ups, a: RNode, b: RNode, c: RNode, d: RNode)
    requires a != c
    ensures u[a := b][c := d] == u[c := d][a := b]
  {}

  /** The cells differ in annotations and chains only. */
  ghost predicate Alike(m: Mem, m': Mem) {
    forall n <- m :: n in m' && (m[n].Inner? <==> m'[n].Inner?)
      && (m[n].Inner? ==> m[n].b == m'[n].b && m[n].left == m'[n].left && m[n].right == m'[n].right)
  }

  lemma {:induction false} PathAlike(m: Mem, m': Mem, x: RNode, t: Tree, lo: int, r: Route)
    requires Alike(m, m') && m.Keys == m'.Keys
    ensures Path(m', x, Unlift(t, lo, r), r.key) == Path(m, x, t, r.key)
    decreases t
  {
    if t.Node? && x in m && m[x].Inner? { PathAlike(m, m', Child(m[x], r.key), Sub(t, r.key), t.b, r); }
  }

  lemma SetChainNode(t: Tree, v: Key, c: seq<Entry>)
    ensures t.Node? ==> SetChain(t, v, c).Node?
  {}

  lemma AddRouteCases(t: Tree, r: Route)
    requires |RadixTree.Search(t, r.key).key| == |r.key|
    ensures var leaf := RadixTree.Search(t, r.key);
            RadixAdd.AddRoute(t, r) == if leaf.key == r.key then AddDup(t, -1, r) else Option.Some(NewPair(t, -1, r, FirstDiff(leaf.key, r.key)))
  {}

  lemma NewPairFacts(t: Tree, w: nat, r: Route, d: nat)
    requires Head(t, w) && RouteOk(r, w) && RadixTree.Search(t, r.key).key != r.key && |RadixTree.Search(t, r.key).key| == w
    requires d == FirstDiff(RadixTree.Search(t, r.key).key, r.key) < w
    ensures Grows(NewPair(t, -1, r, d), -1) && Nets(NewPair(t, -1, r, d))
  {
    AddRouteOk(t, w, r);
    WfFacts(NewPair(t, -1, r, d), w, -1);
  }

  /** The search goes by the first bit, so the leaf it finds differs from the key only later. */
  lemma DiffersBelowTop(t: Tree, w: nat, v: Key)
    requires Head(t, w) && |v| == w && RadixTree.Search(t, v).key != v
    ensures |RadixTree.Search(t, v).key| == w && t.b < FirstDiff(RadixTree.Search(t, v).key, v) < w
  {
    SearchedLeaf(t, w, -1, v);
    var sub := Sub(t, v);
    SearchedBitIs(sub, v, 0, GoesRight(0, v));
  }
}
