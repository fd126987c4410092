/**
 Who owns the nodes of lib/radix.c: a route comes with a pair of nodes, its leaf and an internal node, which the
 caller takes back when the route is deleted. The internal node may by then serve the tree for another route, and
 is copied into a node that stays. This module proves that the copy is no change of the trie and that it always
 finds a place.
 */
module RadixPairs {
  import opened RadixTree
  import opened RadixAdd
  import opened RadixDelete
  import opened RadixSteps
  import opened RadixLinks

  // ---------------------------------------------------------------- copying a node

  /** "if (p->rn_l == t) p->rn_l = x; else p->rn_r = x" */
  function Turn(c: Cell, a: RNode, b: RNode): Cell
    requires c.Inner?
  {
    if c.left == a then c.(left := b) else c.(right := b)
  }

  /** Memory after the internal node a has been copied to b, and its parent's and children's links turned to b. */
  function Moved(m: Mem, u: Ups, a: RNode, b: RNode): Mem
    requires a in m && a in u && u[a] in m && m[u[a]].Inner?
  {
    m[b := m[a]][u[a] := Turn(m[u[a]], a, b)]
  }

  function MovedUps(m: Mem, u: Ups, a: RNode, b: RNode): Ups
    requires a in m && a in u && m[a].Inner?
  {
    u[b := u[a]][m[a].left := b][m[a].right := b]
  }

  lemma Reparent(m: Mem, u: Ups, m': Mem, u': Ups, x: RNode, p: RNode, p': RNode, t: Tree)
    requires Rep(m, u, x, p, t) && x in m' && m'[x] == m[x] && x in u' && u'[x] == p'
    requires Same(m, u, m', u', Nodes(m, x, t) - {x})
    ensures Rep(m', u', x, p', t) && Nodes(m', x, t) == Nodes(m, x, t)
  {
    if t.Node? {
      Frame(m, u, m', u', m[x].left, x, t.left);
      Frame(m, u, m', u', m[x].right, x, t.right);
    }
  }

  /** A node below the root of t has its parent in t, and is one of its children. */
  lemma {:induction false} ParentWithin(m: Mem, u: Ups, x: RNode, p: RNode, t: Tree, a: RNode)
    requires Rep(m, u, x, p, t) && a in Nodes(m, x, t) - {x}
    ensures a in m && a in u && u[a] in m && u[a] in Nodes(m, x, t) && u[a] != a
    ensures m[u[a]].Inner? && (m[u[a]].left == a || m[u[a]].right == a)
    decreases t
  {
    if a in Nodes(m, m[x].left, t.left) {
      if a != m[x].left { ParentWithin(m, u, m[x].left, x, t.left, a); }
    } else {
      if a != m[x].right { ParentWithin(m, u, m[x].right, x, t.right, a); }
    }
  }

  lemma {:induction false} ChildrenWithin(m: Mem, u: Ups, x: RNode, p: RNode, t: Tree, a: RNode)
    requires Rep(m, u, x, p, t) && a in Nodes(m, x, t)
    ensures a in m && (m[a].Inner? ==> {m[a].left, m[a].right} <= Nodes(m, x, t) - {x})
    decreases t
  {
    if t.Node? {
      assert m[x].left in Nodes(m, m[x].left, t.left) && m[x].right in Nodes(m, m[x].right, t.right);
      if a in Nodes(m, m[x].left, t.left) {
        ChildrenWithin(m, u, m[x].left, x, t.left, a);
      } else if a != x {
        ChildrenWithin(m, u, m[x].right, x, t.right, a);
      }
    }
  }

  lemma MoveHere(m: Mem, u: Ups, m': Mem, u': Ups, a: RNode, p: RNode, t: Tree, b: RNode)
    requires Rep(m, u, a, p, t) && t.Node? && b !in Nodes(m, a, t)
    requires b in m' && m'[b] == m[a] && b in u' && u'[b] == p
    requires m[a].left in u' && u'[m[a].left] == b && m[a].right in u' && u'[m[a].right] == b
    requires forall n <- Nodes(m, a, t) - {a} :: n in m' && n in m && m'[n] == m[n]
    requires forall n <- Nodes(m, a, t) - {a, m[a].left, m[a].right} :: n in u' && n in u && u'[n] == u[n]
    ensures Rep(m', u', b, p, t) && Nodes(m', b, t) == Nodes(m, a, t) - {a} + {b}
  {
    assert m[a].left in Nodes(m, m[a].left, t.left) && m[a].right in Nodes(m, m[a].right, t.right);
    Reparent(m, u, m', u', m[a].left, a, b, t.left);
    Reparent(m, u, m', u', m[a].right, a, b, t.right);
  }

  lemma {:induction false} NodesKnown(m: Mem, u: Ups, x: RNode, p: RNode, t: Tree)
    requires Rep(m, u, x, p, t)
    ensures forall n <- Nodes(m, x, t) :: n in m && n in u
    decreases t
  {
    if t.Node? {
      NodesKnown(m, u, m[x].left, x, t.left);
      NodesKnown(m, u, m[x].right, x, t.right);
    }
  }

  /** Copying an internal node, other than the root, to an unused one leaves the same trie on the nodes. */
  lemma {:induction false} MoveRep(m: Mem, u: Ups, x: RNode, p: RNode, t: Tree, a: RNode, b: RNode)
    requires Rep(m, u, x, p, t) && a in Nodes(m, x, t) - {x} && a in m && m[a].Inner? && b !in Nodes(m, x, t)
    ensures a in u && u[a] in m && m[u[a]].Inner?
    ensures var m', u' := Moved(m, u, a, b), MovedUps(m, u, a, b);
            Rep(m', u', x, p, t) && Nodes(m', x, t) == Nodes(m, x, t) - {a} + {b}
    decreases t
  {
    ParentWithin(m, u, x, p, t, a);
    ChildrenWithin(m, u, x, p, t, a);
    NodesKnown(m, u, x, p, t);
    var m', u' := Moved(m, u, a, b), MovedUps(m, u, a, b);
    var v := TowardsIt(m, u, x, p, t, a);
    Down(m, u, x, p, t, v);
    var y, sub := Child(m[x], v), Sub(t, v);
    hide Rep, Nodes, Path;
    if a == y {
      RootKind(m, u, y, x, sub);
      ChildrenWithin(m, u, y, x, sub, a);
      OtherChild(m, u, x, p, t, v);
      MoveHere(m, u, m', u', y, x, sub, b);
    } else {
      ParentWithin(m, u, y, x, sub, a);
      ChildrenWithin(m, u, y, x, sub, a);
      MoveRep(m, u, y, x, sub, a, b);
    }
    SideChanges(m, u, m', u', x, p, t, v, sub, {a}, {b});
    assert With(t, v, sub, t.mk) == t;
  }

  lemma RootKind(m: Mem, u: Ups, x: RNode, p: RNode, t: Tree)
    requires Rep(m, u, x, p, t)
    ensures x in m && (m[x].Inner? <==> t.Node?)
  {}

  lemma OtherChild(m: Mem, u: Ups, x: RNode, p: RNode, t: Tree, v: Key)
    requires Rep(m, u, x, p, t) && t.Node?
    ensures m[x].left != m[x].right
  {
    assert m[x].left in Nodes(m, m[x].left, t.left) && m[x].right in Nodes(m, m[x].right, t.right);
  }

  /** A key that leads to the side where a is. */
  lemma TowardsIt(m: Mem, u: Ups, x: RNode, p: RNode, t: Tree, a: RNode) returns (v: Key)
    requires Rep(m, u, x, p, t) && a in Nodes(m, x, t) - {x}
    ensures t.Node? && m[x].Inner? && a in Nodes(m, Child(m[x], v), Sub(t, v))
  {
    v := if a in Nodes(m, m[x].left, t.left) then [] else Seq(t.b + 1, true);
  }

  // ---------------------------------------------------------------- internal nodes

  ghost function Internal(m: Mem, ns: set<RNode>): set<RNode> {
    set n | n in ns && n in m && m[n].Inner?
  }

  /** The internal nodes in use, but for the top node. */
  ghost function InnersOf(m: Mem, x: RNode, t: Tree): set<RNode> {
    Internal(m, Nodes(m, x, t)) - {x}
  }

  lemma InternalRewritten(m: Mem, ns: set<RNode>, x: RNode, c: Cell)
    requires x in m && (m[x].Inner? <==> c.Inner?)
    ensures Internal(m[x := c], ns) == Internal(m, ns)
  {}

  lemma InternalPaired(m: Mem, ns: set<RNode>, q: RNode, s: RNode, n: RNode, tt: RNode, r: Route, d: nat)
    requires q in ns && s in ns && q in m && m[q].Inner? && s in m && n !in ns && tt !in ns && n != tt && q != s
    ensures Internal(Paired(m, q, s, n, tt, r, d), ns + {n, tt}) == Internal(m, ns) + {n}
  {}

  lemma InternalSpliced(m: Mem, ns: set<RNode>, g: RNode, c: RNode, s: RNode, leaf: RNode, v: Key)
    requires g in m && m[g].Inner? && c in m && m[c].Inner? && s in m && g != s && leaf in m && m[leaf].Outer?
    ensures Internal(Spliced(m, g, c, s, v), ns - {c, leaf}) == Internal(m, ns) - {c}
    ensures c in ns ==> c in Internal(m, ns)
  {}

  lemma InternalMoved(m: Mem, u: Ups, ns: set<RNode>, a: RNode, b: RNode)
    requires a in ns && a in m && a in u && u[a] in m && m[u[a]].Inner? && m[a].Inner? && b !in ns && u[a] != b
    ensures Internal(Moved(m, u, a, b), ns - {a} + {b}) == Internal(m, ns) - {a} + {b}
  {}

  /** Everything about a pair linked in between q and s. */
  lemma PairAll(m: Mem, u: Ups, x: RNode, t: Tree, r: Route, d: nat, q: RNode, s: RNode, n: RNode, tt: RNode)
    requires Rep(m, u, x, x, t) && t.Node? && t.b < d < |r.key| && n !in Nodes(m, x, t) && tt !in Nodes(m, x, t) && n != tt
    requires q == StopParent(m, x, t, r.key, d) && q in m && m[q].Inner? && s == Child(m[q], r.key) && s in m
    ensures var m', u', t' := Paired(m, q, s, n, tt, r, d), PairedUps(u, q, s, n, tt), Pair(t, r, d);
            && t'.Node? && Rep(m', u', x, x, t') && Nodes(m', x, t') == Nodes(m, x, t) + {n, tt}
            && LeafAt(m', x, t', r.key) == tt
            && InnersOf(m', x, t') == InnersOf(m, x, t) + {n}
  {
    assert x in Nodes(m, x, t);
    hide Rep, Nodes, Path, Pair, StopParent, Paired, PairedUps, Internal;
    PairRep(m, u, x, x, t, r, d, n, tt);
    PairDown(t, r, d);
    StopChild(m, u, x, x, t, r.key, d);
    InternalPaired(m, Nodes(m, x, t), q, s, n, tt, r, d);
  }

  lemma {:induction false} StopChild(m: Mem, u: Ups, x: RNode, p: RNode, t: Tree, v: Key, d: nat)
    requires Rep(m, u, x, p, t) && t.Node? && t.b < d
    ensures var q := StopParent(m, x, t, v, d); q in m && m[q].Inner? && Child(m[q], v) != q
    decreases t
  {
    Down(m, u, x, p, t, v);
    if Sub(t, v).Node? && Sub(t, v).b < d { StopChild(m, u, Child(m[x], v), x, Sub(t, v), v, d); }
  }

  /** Everything about a parent and its leaf spliced out. */
  lemma SpliceAll(m: Mem, u: Ups, x: RNode, t: Tree, v: Key)
    requires Rep(m, u, x, x, t) && t.Node? && Sub(t, v).Node?
    ensures var leaf := LeafAt(m, x, t, v);
            && leaf in u && u[leaf] in u && u[leaf] in m && m[u[leaf]].Inner? && u[u[leaf]] in m && m[u[u[leaf]]].Inner?
            && Sibling(m[u[leaf]], v) in m
    ensures var leaf := LeafAt(m, x, t, v);
            var c := u[leaf];
            var g, s := u[c], Sibling(m[c], v);
            var m', u', t' := Spliced(m, g, c, s, v), u[s := g], Splice(t, v);
            && t'.Node? && Rep(m', u', x, x, t') && Nodes(m', x, t') == Nodes(m, x, t) - {c, leaf}
            && c != x && s != leaf && g != s && {g, c, s, leaf} <= Nodes(m, x, t)
            && Internal(m', Nodes(m', x, t')) == Internal(m, Nodes(m, x, t)) - {c} && c in Internal(m, Nodes(m, x, t))
  {
    hide Rep, Nodes, Path, Splice, Grandparent, Internal, Spliced;
    SpliceRep(m, u, x, x, t, v);
    SpliceNode(t, v);
    PathLinks(m, u, x, x, t, v);
    var leaf := LeafAt(m, x, t, v);
    InternalSpliced(m, Nodes(m, x, t), u[u[leaf]], u[leaf], Sibling(m[u[leaf]], v), leaf, v);
  }

  lemma SpliceNode(t: Tree, v: Key)
    requires t.Node? && Sub(t, v).Node?
    ensures Splice(t, v).Node?
  {}

  // ---------------------------------------------------------------- whose internal node is in use

  /** q is the one route of the key k whose internal node is in use. */
  ghost predicate Lends(s: set<Route>, pairs: map<Route, RNode>, inner: set<RNode>, k: Key, q: Route)
    requires pairs.Keys == s
  {
    && q in s && q.key == k && pairs[q] in inner
    && forall o :: o in s && o.key == k && pairs[o] in inner ==> o == q
  }

  ghost predicate LentOnce(s: set<Route>, pairs: map<Route, RNode>, inner: set<RNode>, q: Route)
    requires pairs.Keys == s && q in s
  {
    if IsSentinel(q.key) then pairs[q] !in inner else exists o :: Lends(s, pairs, inner, q.key, o)
  }

  ghost predicate Owner(s: set<Route>, pairs: map<Route, RNode>, n: RNode)
    requires pairs.Keys == s
  {
    exists q :: q in s && pairs[q] == n
  }

  /**
   Every internal node in use came with a route that is still stored, no two routes share one, and of the routes
   of one key exactly one has its internal node in use: none for the two sentinel keys, which have nodes of their own.
   */
  ghost predicate Own(s: set<Route>, pairs: map<Route, RNode>, inner: set<RNode>) {
    && pairs.Keys == s
    && (forall q, o :: q in s && o in s && q != o ==> pairs[q] != pairs[o])
    && (forall n :: n in inner ==> Owner(s, pairs, n))
    && (forall q :: q in s ==> LentOnce(s, pairs, inner, q))
  }

  /** A route for a key that is there keeps its internal node in reserve. */
  lemma OwnSpare(s: set<Route>, pairs: map<Route, RNode>, inner: set<RNode>, r: Route, n: RNode)
    requires Own(s, pairs, inner) && r !in s && n !in pairs.Values && n !in inner
    requires IsSentinel(r.key) || exists q :: q in s && q.key == r.key
    ensures Own(s + {r}, pairs[r := n], inner)
  {
    var s', pairs' := s + {r}, pairs[r := n];
    OwnersStay(s, pairs, s', pairs', inner);
    forall q | q in s' ensures LentOnce(s', pairs', inner, q) {
      var o := q;
      if q == r && !IsSentinel(r.key) { o :| o in s && o.key == r.key; }
      if o in s {
        assert LentOnce(s, pairs, inner, o);
        if !IsSentinel(o.key) {
          var l :| Lends(s, pairs, inner, o.key, l);
          assert Lends(s', pairs', inner, q.key, l);
        }
      }
    }
  }

  lemma OwnersStay(s: set<Route>, pairs: map<Route, RNode>, s': set<Route>, pairs': map<Route, RNode>, inner: set<RNode>)
    requires pairs.Keys == s && pairs'.Keys == s' && forall n :: n in inner ==> Owner(s, pairs, n)
    requires forall q :: q in s && pairs[q] in inner ==> q in s' && pairs'[q] == pairs[q]
    ensures forall n :: n in inner ==> Owner(s', pairs', n)
  {
    forall n | n in inner ensures Owner(s', pairs', n) {
      assert Owner(s, pairs, n);
      var q :| q in s && pairs[q] == n;
      assert q in s' && pairs'[q] == n;
    }
  }

  /** A route for a new key puts its internal node to use. */
  lemma OwnNew(s: set<Route>, pairs: map<Route, RNode>, inner: set<RNode>, r: Route, n: RNode)
    requires Own(s, pairs, inner) && n !in pairs.Values
    requires !IsSentinel(r.key) && forall q :: q in s ==> q.key != r.key
    ensures Own(s + {r}, pairs[r := n], inner + {n})
  {
    var s', pairs', inner' := s + {r}, pairs[r := n], inner + {n};
    OwnersStay(s, pairs, s', pairs', inner);
    assert pairs'[r] == n;
    assert Owner(s', pairs', n);
    forall q | q in s' ensures LentOnce(s', pairs', inner', q) {
      if q == r {
        assert Lends(s', pairs', inner', r.key, r);
      } else {
        assert LentOnce(s, pairs, inner, q);
        if !IsSentinel(q.key) {
          var l :| Lends(s, pairs, inner, q.key, l);
          assert Lends(s', pairs', inner', q.key, l);
        }
      }
    }
  }

  /** A route whose internal node is not in use goes. */
  lemma OwnDrop(s: set<Route>, pairs: map<Route, RNode>, inner: set<RNode>, r: Route)
    requires Own(s, pairs, inner) && r in s && pairs[r] !in inner
    ensures Own(s - {r}, pairs - {r}, inner)
  {
    var s', pairs' := s - {r}, pairs - {r};
    OwnersStay(s, pairs, s', pairs', inner);
    forall q | q in s' ensures LentOnce(s', pairs', inner, q) {
      assert LentOnce(s, pairs, inner, q);
      if !IsSentinel(q.key) {
        var l :| Lends(s, pairs, inner, q.key, l);
        assert Lends(s', pairs', inner, q.key, l);
      }
    }
  }

  /** A route whose internal node is in use goes; any other route of its key has one in reserve that can take over. */
  lemma OwnHandOver(s: set<Route>, pairs: map<Route, RNode>, inner: set<RNode>, r: Route, q: Route)
    requires Own(s, pairs, inner) && r in s && pairs[r] in inner && q in s && q != r && q.key == r.key
    ensures pairs[q] !in inner && !IsSentinel(r.key)
    ensures Own(s - {r}, pairs - {r}, inner - {pairs[r]} + {pairs[q]})
  {
    var s', pairs', inner' := s - {r}, pairs - {r}, inner - {pairs[r]} + {pairs[q]};
    assert LentOnce(s, pairs, inner, r);
    var l :| Lends(s, pairs, inner, r.key, l);
    assert l == r;
    OwnersStay(s, pairs, s', pairs', inner - {pairs[r]});
    assert q in s' && pairs'[q] == pairs[q];
    assert Owner(s', pairs', pairs[q]);
    forall o | o in s' ensures LentOnce(s', pairs', inner', o) {
      assert LentOnce(s, pairs, inner, o);
      if o.key == r.key {
        assert Lends(s', pairs', inner', o.key, q);
      } else if !IsSentinel(o.key) {
        var k :| Lends(s, pairs, inner, o.key, k);
        assert Lends(s', pairs', inner', o.key, k);
      }
    }
  }

  /** The last route of a key goes: its internal node is in use, though perhaps for another key. */
  lemma OwnLast(s: set<Route>, pairs: map<Route, RNode>, inner: set<RNode>, r: Route)
    requires Own(s, pairs, inner) && r in s && !IsSentinel(r.key) && forall q :: q in s && q.key == r.key ==> q == r
    ensures pairs[r] in inner && Own(s - {r}, pairs - {r}, inner - {pairs[r]})
  {
    var s', pairs', inner' := s - {r}, pairs - {r}, inner - {pairs[r]};
    assert LentOnce(s, pairs, inner, r);
    OwnersStay(s, pairs, s', pairs', inner');
    forall o | o in s' ensures LentOnce(s', pairs', inner', o) {
      assert LentOnce(s, pairs, inner, o);
      if !IsSentinel(o.key) {
        var k :| Lends(s, pairs, inner, o.key, k);
        assert Lends(s', pairs', inner', o.key, k);
      }
    }
  }

  lemma OwnKeys(s: set<Route>, pairs: map<Route, RNode>, inner: set<RNode>)
    requires Own(s, pairs, inner)
    ensures pairs.Keys == s
    ensures forall n :: n in inner ==> n in pairs.Values
    ensures forall q, o :: q in s && o in s && q != o ==> pairs[q] != pairs[o]
  {
    forall n | n in inner ensures n in pairs.Values {
      assert Owner(s, pairs, n);
    }
  }

  lemma OwnWithout(pairs: map<Route, RNode>, r: Route)
    requires r in pairs && forall q, o :: q in pairs && o in pairs && q != o ==> pairs[q] != pairs[o]
    ensures (pairs - {r}).Values == pairs.Values - {pairs[r]}
  {
    var rest := pairs - {r};
    forall n | n in pairs.Values - {pairs[r]} ensures n in rest.Values {
      var q :| q in pairs && pairs[q] == n;
      assert rest[q] == n;
    }
  }

  /** A sentinel's routes have their internal nodes in reserve. */
  lemma OwnInUse(s: set<Route>, pairs: map<Route, RNode>, inner: set<RNode>, r: Route)
    requires Own(s, pairs, inner) && r in s && pairs[r] in inner
    ensures !IsSentinel(r.key)
  {
    assert LentOnce(s, pairs, inner, r);
  }

  lemma OwnNothing()
    ensures Own({}, map[], {})
  {}
}
