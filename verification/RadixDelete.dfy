/** squid_rn_delete: removal of a route, of its annotation, and of a leaf with its internal node. */
module RadixDelete {
  import opened Options
  import opened RadixTree
  import opened RadixMatch
  import opened RadixAdd

  // ---------------------------------------------------------------- the code

  /** Taking an annotation off the list of the node that holds it. */
  function MkRemove(mk: seq<Route>, r: Route): seq<Route> {
    if mk == [] then []
    else if mk[0] == r then mk[1..]
    else [mk[0]] + MkRemove(mk[1..], r)
  }

  function MkDrop(mk: seq<Route>, r: Route, lo: int, b: int): seq<Route> {
    if LiftsTo(r, lo, b) then MkRemove(mk, r) else mk
  }

  function ChainRemove(chain: seq<Entry>, r: Route): seq<Entry> {
    if chain == [] then []
    else if chain[0].route == r then chain[1..]
    else [chain[0]] + ChainRemove(chain[1..], r)
  }

  /** Other routes share the key (or it is a sentinel): only the chain shrinks. */
  function DropDup(t: Tree, lo: int, r: Route): Tree {
    match t
    case Leaf(key, root, chain) => Leaf(key, root, ChainRemove(chain, r))
    case Node(b, mk, left, right) =>
      if b < |r.key| && r.key[b]
      then Node(b, MkDrop(mk, r, lo, b), left, DropDup(right, b, r))
      else Node(b, MkDrop(mk, r, lo, b), DropDup(left, b, r), right)
  }

  /** "Demote routes attached to us" onto a sibling leaf: its chain holds them in the same order. */
  function DemotedChain(chain: seq<Entry>, mk: seq<Route>): seq<Entry> {
    if chain == [] then []
    else if mk != [] && chain[0].lifted && chain[0].route == mk[0]
    then [chain[0].(lifted := false)] + DemotedChain(chain[1..], mk[1..])
    else [chain[0]] + DemotedChain(chain[1..], mk)
  }

  /** What is left of the list when the chain is exhausted; the code asserts that nothing is. */
  function Orphans(chain: seq<Entry>, mk: seq<Route>): seq<Route> {
    if chain == [] || mk == [] then mk
    else Orphans(chain[1..], if chain[0].lifted && chain[0].route == mk[0] then mk[1..] else mk)
  }

  function Demote(x: Tree, mk: seq<Route>): Tree {
    match x
    case Leaf(key, root, chain) => Leaf(key, root, DemotedChain(chain, mk))
    case Node(b, own, left, right) => Node(b, own + mk, left, right)
  }

  /** The leaf goes, and its parent with it; the sibling takes the parent's place. */
  function DropLeaf(t: Tree, lo: int, r: Route): Tree
    requires t.Node?
  {
    var mk := MkDrop(t.mk, r, lo, t.b);
    if t.b < |r.key| && r.key[t.b] then
      if t.right.Leaf? then Demote(t.left, mk) else Node(t.b, mk, t.left, DropLeaf(t.right, t.b, r))
    else
      if t.left.Leaf? then Demote(t.right, mk) else Node(t.b, mk, DropLeaf(t.left, t.b, r), t.right)
  }

  /** The route that a deletion names: by its mask, or the head of the chain when no mask is given. */
  function Victim(leaf: Tree, m: Mask): Found
    requires leaf.Leaf?
  {
    if m.Net? then FindMask(leaf.chain, m)
    else if leaf.root || leaf.chain == [] then Miss
    else Hit(leaf.chain[0].route)
  }

  /** squid_rn_delete; None is its NULL return, otherwise the new tree and the route removed. */
  function Delete(t: Tree, key: Key, m: Mask): Option<(Tree, Route)>
    requires t.Node?
  {
    var leaf := Search(t, key);
    if leaf.key != key then None
    else
      var r := Victim(leaf, m);
      if !r.Hit? then None
      else if leaf.root || |leaf.chain| > 1 then Some((DropDup(t, -1, r.route), r.route))
      else Some((DropLeaf(t, -1, r.route), r.route))
  }

  // ---------------------------------------------------------------- chains and lists

  /** Where ChainRemove cuts. */
  lemma {:induction false} ChainRemoveAt(chain: seq<Entry>, r: Route) returns (k: int)
    ensures 0 <= k <= |chain| && forall i :: 0 <= i < k ==> chain[i].route != r
    ensures if k == |chain| then ChainRemove(chain, r) == chain
            else chain[k].route == r && ChainRemove(chain, r) == chain[..k] + chain[k + 1..]
  {
    k := 0;
    if chain != [] && chain[0].route != r {
      k := ChainRemoveAt(chain[1..], r);
      k := k + 1;
    }
  }

  lemma {:induction false} LiftableDrop(chain: seq<Entry>, r: Route, w: nat, lo: int, hi: int)
    requires ChainSorted(chain, w)
    ensures Liftable(ChainRemove(chain, r), lo, hi) == MkDrop(Liftable(chain, lo, hi), r, lo, hi)
  {
    if chain != [] {
      var rest, q := chain[1..], chain[0].route;
      assert ChainSorted(rest, w);
      LiftableDrop(rest, r, w, lo, hi);
      var head, mk := if LiftsTo(q, lo, hi) then [q] else [], Liftable(rest, lo, hi);
      assert Liftable(chain, lo, hi) == head + mk;
      if q == r {
        if LiftsTo(r, lo, hi) { assert (head + mk)[1..] == mk; } else { assert head + mk == mk; }
      } else {
        var c := ChainRemove(rest, r);
        assert ([chain[0]] + c)[1..] == c && ([chain[0]] + c)[0] == chain[0];
        assert Liftable([chain[0]] + c, lo, hi) == head + Liftable(c, lo, hi);
        if head == [] {
          assert head + mk == mk && head + Liftable(c, lo, hi) == Liftable(c, lo, hi);
        } else {
          assert (head + mk)[1..] == mk && (head + mk)[0] == q;
        }
      }
    }
  }

  /** The annotations that a removed parent held find their routes in the sibling leaf, all of them. */
  lemma {:induction false} DemotedOk(chain: seq<Entry>, key: Key, w: nat, lo: int, b: int)
    requires ChainSorted(chain, w) && lo <= b && |key| == w
    requires forall i :: 0 <= i < |chain| ==> EntryOk(chain[i], key, b)
    ensures var mk := Liftable(chain, lo, b);
            var c := DemotedChain(chain, mk);
            && Orphans(chain, mk) == []
            && |c| == |chain|
            && forall i :: 0 <= i < |c| ==> c[i].route == chain[i].route && EntryOk(c[i], key, lo)
  {
    hide Rank;
    if chain != [] {
      var rest, q := chain[1..], chain[0].route;
      assert forall i :: 0 <= i < |rest| ==> rest[i] == chain[i + 1];
      assert ChainSorted(rest, w);
      hide ChainSorted;
      DemotedOk(rest, key, w, lo, b);
      assert EntryOk(chain[0], key, b);
      var mk := Liftable(rest, lo, b);
      if LiftsTo(q, lo, b) {
        assert ([q] + mk)[1..] == mk && ([q] + mk)[0] == q;
      } else {
        assert [] + mk == mk;
        HeadNotLifted(chain, w, lo, b);
      }
    }
  }

  lemma HeadNotLifted(chain: seq<Entry>, w: nat, lo: int, b: int)
    requires ChainSorted(chain, w) && chain != []
    ensures var mk := Liftable(chain[1..], lo, b); mk != [] ==> mk[0] != chain[0].route
  {
    var rest := chain[1..];
    assert forall i :: 0 <= i < |rest| ==> rest[i] == chain[i + 1];
    assert forall i :: 0 <= i < |rest| ==> Rank(chain[0].route, w) > Rank(rest[i].route, w);
    var mk := Liftable(rest, lo, b);
    if mk != [] { LiftableMember(rest, lo, b, mk[0]); }
  }

  // ---------------------------------------------------------------- shrinking a chain

  ghost predicate LeftShrank(t: Tree, u: Tree, r: Route) {
    Leftmost(u).chain == if Leftmost(t).key == r.key then ChainRemove(Leftmost(t).chain, r) else Leftmost(t).chain
  }

  lemma LeafDropOk(t: Tree, w: nat, lo: int, r: Route)
    requires t.Leaf? && Wf(t, w, lo) && t.key == r.key && (t.root || |t.chain| > 1)
    ensures var u := DropDup(t, lo, r);
            Wf(u, w, lo) && Routes(u) == Routes(t) - {r} && SameShape(t, u) && LeftShrank(t, u, r)
  {
    var k := ChainRemoveAt(t.chain, r);
    if k == |t.chain| {
      assert r !in Routes(t);
    } else {
      RemovedChain(t.chain, w, k);
      RemovedRoutes(t, DropDup(t, lo, r), w, k);
    }
  }

  lemma RemovedChain(chain: seq<Entry>, w: nat, k: int)
    requires ChainSorted(chain, w) && 0 <= k < |chain|
    ensures ChainSorted(chain[..k] + chain[k + 1..], w)
  {}

  lemma RemovedRoutes(t: Tree, u: Tree, w: nat, k: int)
    requires t.Leaf? && u.Leaf? && 0 <= k < |t.chain| && u.chain == t.chain[..k] + t.chain[k + 1..] && ChainSorted(t.chain, w)
    ensures Routes(u) == Routes(t) - {t.chain[k].route}
  {
    forall i | 0 <= i < |t.chain| && i != k
      ensures t.chain[i].route in Routes(u) && t.chain[i].route != t.chain[k].route
    {
      assert u.chain[if i < k then i else i - 1] == t.chain[i];
      assert Rank(t.chain[i].route, w) != Rank(t.chain[k].route, w);
    }
    forall i | 0 <= i < |u.chain|
      ensures u.chain[i].route in Routes(t) - {t.chain[k].route}
    {
      assert u.chain[i] == t.chain[if i < k then i else i + 1];
    }
  }

  lemma MkShrinks(t: Tree, w: nat, lo: int, l': Tree, r: Route)
    requires t.Node? && Wf(t, w, lo) && RouteOk(r, w) && Search(t, r.key).key == r.key
    requires LeftShrank(t.left, l', r)
    ensures MkDrop(t.mk, r, lo, t.b) == Liftable(Leftmost(l').chain, lo, t.b)
  {
    var m := LeftmostWf(t, w, lo);
    if LiftsTo(r, lo, t.b) { ZeroSearch(t, w, lo, r.key); }
    if Leftmost(t).key == r.key { LiftableDrop(Leftmost(t).chain, r, w, lo, t.b); }
  }

  lemma {:induction false} DropDupOk(t: Tree, w: nat, lo: int, r: Route)
    requires Wf(t, w, lo) && RouteOk(r, w) && Search(t, r.key).key == r.key
    requires Search(t, r.key).root || |Search(t, r.key).chain| > 1
    ensures var u := DropDup(t, lo, r);
            Wf(u, w, lo) && Routes(u) == Routes(t) - {r} && SameShape(t, u) && LeftShrank(t, u, r)
  {
    if t.Leaf? {
      LeafDropOk(t, w, lo, r);
    } else {
      hide Liftable, MkDrop, LeafOk, RouteOk;
      var k := Leftmost(t.left).key;
      if r.key[t.b] {
        DropDupOk(t.right, w, t.b, r);
        var u := DropDup(t.right, t.b, r);
        ShapeRefl(t.left);
        ShapeAgree(t.right, u, k, t.b);
        ShapeBit(t.right, u, t.b, true);
        LeftIsNotRight(t, w, lo, r.key);
        MkShrinks(t, w, lo, t.left, r);
        if r in Routes(t.left) { RouteBit(t.left, w, t.b, r, t.b, false); }
      } else {
        DropDupOk(t.left, w, t.b, r);
        var u := DropDup(t.left, t.b, r);
        ShapeRefl(t.right);
        ShapeLeftmost(t.left, u);
        ShapeAgree(t.left, u, k, t.b);
        ShapeBit(t.left, u, t.b, false);
        MkShrinks(t, w, lo, u, r);
        if r in Routes(t.right) { RouteBit(t.right, w, t.b, r, t.b, true); }
      }
    }
  }

  // ---------------------------------------------------------------- removing a leaf

  /** The leaf of r is the child of t on its path, and r is all it holds. */
  ghost predicate LastRoute(t: Tree, w: nat, lo: int, r: Route) {
    && t.Node? && Wf(t, w, lo) && RouteOk(r, w)
    && Search(t, r.key).key == r.key && !Search(t, r.key).root
    && |Search(t, r.key).chain| == 1 && Search(t, r.key).chain[0].route == r
  }

  lemma DemoteShape(x: Tree, mk: seq<Route>)
    ensures SameShape(x, Demote(x, mk))
  {
    if x.Node? { ShapeRefl(x.left); ShapeRefl(x.right); }
  }

  lemma DemoteRoutes(x: Tree, w: nat, lo: int, b: int)
    requires Wf(x, w, b) && lo <= b
    ensures var u := Demote(x, Liftable(Leftmost(x).chain, lo, b));
            && Wf(u, w, lo) && Routes(u) == Routes(x)
            && |Leftmost(u).chain| == |Leftmost(x).chain|
            && forall i :: 0 <= i < |Leftmost(x).chain| ==> Leftmost(u).chain[i].route == Leftmost(x).chain[i].route
  {
    var mk := Liftable(Leftmost(x).chain, lo, b);
    var u := Demote(x, mk);
    if x.Leaf? {
      DemotedOk(x.chain, x.key, w, lo, b);
      assert ChainSorted(u.chain, w);
      assert Routes(u) == Routes(x);
    } else {
      var m := LeftmostWf(x, w, b);
      LiftableSplit(Leftmost(x).chain, w, lo, b, x.b);
    }
  }

  /** The node whose leaf child goes is replaced by its other child, annotations included. */
  lemma SpliceOk(t: Tree, w: nat, lo: int, r: Route)
    requires LastRoute(t, w, lo, r) && (if r.key[t.b] then t.right.Leaf? else t.left.Leaf?)
    ensures var x, u := (if r.key[t.b] then t.left else t.right), DropLeaf(t, lo, r);
            && MkDrop(t.mk, r, lo, t.b) == Liftable(Leftmost(x).chain, lo, t.b)
            && u == Demote(x, Liftable(Leftmost(x).chain, lo, t.b))
            && Wf(u, w, lo) && Routes(u) == Routes(t) - {r}
  {
    var x, c := if r.key[t.b] then t.left else t.right, if r.key[t.b] then t.right else t.left;
    assert Search(c, r.key) == c;
    DemoteRoutes(x, w, lo, t.b);
    if r.key[t.b] {
      assert !LiftsTo(r, lo, t.b);
      assert Routes(t.right) == {r} by { LeafRoute(t.right, 0); }
      if r in Routes(t.left) { RouteBit(t.left, w, t.b, r, t.b, false); }
    } else {
      OneBitBlocksLifting(t.right, w, t.b, lo, t.b, t.b);
      assert t.left.chain[1..] == [];
      assert Liftable(t.left.chain[1..], lo, t.b) == [];
      assert t.mk == if LiftsTo(r, lo, t.b) then [r] else [];
      assert Routes(t.left) == {r} by { LeafRoute(t.left, 0); }
      if r in Routes(t.right) { RouteBit(t.right, w, t.b, r, t.b, true); }
    }
  }

  lemma {:induction false} DropLeafLeft(t: Tree, w: nat, m: int, r: Route, lo: int, hi: int)
    requires LastRoute(t, w, m, r) && hi <= m
    ensures Liftable(Leftmost(DropLeaf(t, m, r)).chain, lo, hi) == MkDrop(Liftable(Leftmost(t).chain, lo, hi), r, lo, hi)
  {
    if r.key[t.b] {
      assert !LiftsTo(r, lo, hi);
      if t.right.Leaf? {
        SpliceOk(t, w, m, r);
        DemoteRoutes(t.left, w, m, t.b);
        LiftableSame(Leftmost(t.left).chain, Leftmost(DropLeaf(t, m, r)).chain, lo, hi);
      }
    } else if t.left.Leaf? {
      SpliceOk(t, w, m, r);
      DemoteRoutes(t.right, w, m, t.b);
      LiftableSame(Leftmost(t.right).chain, Leftmost(DropLeaf(t, m, r)).chain, lo, hi);
      OneBitBlocksLifting(t.right, w, t.b, lo, hi, t.b);
      assert Search(t.left, r.key) == t.left;
      assert t.left.chain[1..] == [];
    } else {
      DropLeafLeft(t.left, w, t.b, r, lo, hi);
    }
  }

  lemma {:induction false} DropLeafAgree(t: Tree, lo: int, r: Route, k: Key, n: nat)
    requires t.Node? && Agree(t, k, n)
    ensures Agree(DropLeaf(t, lo, r), k, n)
  {
    var mk := MkDrop(t.mk, r, lo, t.b);
    if t.b < |r.key| && r.key[t.b] {
      if t.right.Leaf? { DemoteShape(t.left, mk); ShapeAgree(t.left, Demote(t.left, mk), k, n); } else { DropLeafAgree(t.right, t.b, r, k, n); }
    } else {
      if t.left.Leaf? { DemoteShape(t.right, mk); ShapeAgree(t.right, Demote(t.right, mk), k, n); } else { DropLeafAgree(t.left, t.b, r, k, n); }
    }
  }

  lemma {:induction false} DropLeafBit(t: Tree, lo: int, r: Route, n: nat, x: bool)
    requires t.Node? && BitIs(t, n, x)
    ensures BitIs(DropLeaf(t, lo, r), n, x)
  {
    var mk := MkDrop(t.mk, r, lo, t.b);
    if t.b < |r.key| && r.key[t.b] {
      if t.right.Leaf? { DemoteShape(t.left, mk); ShapeBit(t.left, Demote(t.left, mk), n, x); } else { DropLeafBit(t.right, t.b, r, n, x); }
    } else {
      if t.left.Leaf? { DemoteShape(t.right, mk); ShapeBit(t.right, Demote(t.right, mk), n, x); } else { DropLeafBit(t.left, t.b, r, n, x); }
    }
  }

  lemma {:induction false} DropLeafOk(t: Tree, w: nat, lo: int, r: Route)
    requires LastRoute(t, w, lo, r)
    ensures Wf(DropLeaf(t, lo, r), w, lo)
    ensures Routes(DropLeaf(t, lo, r)) == Routes(t) - {r}
  {
    if r.key[t.b] && t.right.Node? {
      DropLeafOk(t.right, w, t.b, r);
      DropLeafAgree(t.right, t.b, r, Leftmost(t.left).key, t.b);
      DropLeafBit(t.right, t.b, r, t.b, true);
      assert !LiftsTo(r, lo, t.b);
      hide Liftable, LeafOk, RouteOk;
      if r in Routes(t.left) { RouteBit(t.left, w, t.b, r, t.b, false); }
    } else if !r.key[t.b] && t.left.Node? {
      hide Liftable, LeafOk, RouteOk, MkDrop;
      DropLeafOk(t.left, w, t.b, r);
      DropLeafLeft(t.left, w, t.b, r, lo, t.b);
      DropLeafBit(t.left, t.b, r, t.b, false);
      DropLeafLeftKeys(t, w, lo, r);
      if r in Routes(t.right) { RouteBit(t.right, w, t.b, r, t.b, true); }
    } else {
      SpliceOk(t, w, lo, r);
    }
  }

  lemma DropLeafLeftKeys(t: Tree, w: nat, lo: int, r: Route)
    requires LastRoute(t, w, lo, r) && !r.key[t.b] && t.left.Node? && Wf(DropLeaf(t.left, t.b, r), w, t.b)
    ensures var l := DropLeaf(t.left, t.b, r); Agree(l, Leftmost(l).key, t.b) && Agree(t.right, Leftmost(l).key, t.b)
  {
    var l, k := DropLeaf(t.left, t.b, r), Leftmost(t.left).key;
    DropLeafAgree(t.left, t.b, r, k, t.b);
    var m := LeftmostWf(l, w, t.b);
    var n := LeftmostWf(t.left, w, t.b);
    LeftmostAgree(l, k, t.b);
    AgreeSwap(l, k, t.b, Leftmost(l).key);
    AgreeSwap(t.right, k, t.b, Leftmost(l).key);
  }

  lemma {:induction false} DropLeafSearch(t: Tree, w: nat, lo: int, r: Route, k: Key)
    requires LastRoute(t, w, lo, r) && |k| == w && k != r.key && Search(t, k).key == k
    ensures Search(DropLeaf(t, lo, r), k).key == k
  {
    var mk := MkDrop(t.mk, r, lo, t.b);
    var c := if r.key[t.b] then t.right else t.left;
    if c.Leaf? {
      var x := if r.key[t.b] then t.left else t.right;
      assert Search(c, r.key) == c && Search(c, k) == c;
      DemoteShape(x, mk);
      ShapeSearch(x, Demote(x, mk), k);
    } else if k[t.b] == r.key[t.b] {
      DropLeafSearch(c, w, t.b, r, k);
    }
  }

  // ---------------------------------------------------------------- whole trees

  /** Which route squid_rn_delete removes. */
  lemma VictimOk(t: Tree, w: nat, key: Key, m: Mask)
    requires Head(t, w) && |key| == w && Search(t, key).key == key
    ensures var f := Victim(Search(t, key), m);
            && !f.Sentinel?
            && (m.Net? ==> (f.Hit? <==> Route(key, m) in Routes(t)) && (f.Hit? ==> f.route == Route(key, m)))
            && (m.Host? ==> (f.Hit? <==> !IsSentinel(key)))
            && (f.Hit? ==> f.route in Routes(t) && f.route.key == key)
            && (f.Hit? && m.Host? ==> forall q :: q in Routes(t) && q.key == key ==> Rank(q, w) <= Rank(f.route, w))
  {
    var leaf := Search(t, key);
    SearchedLeaf(t, w, -1, key);
    SearchedRoot(t, w, -1, key);
    NotAllBits(key);
    var lo := SearchedOk(t, w, -1, key);
    assert forall i :: 0 <= i < |leaf.chain| ==> EntryOk(leaf.chain[i], key, lo);
    if m.Net? {
      if Route(key, m) in Routes(t) {
        RouteIsSearched(t, w, -1, Route(key, m));
        var i :| 0 <= i < |leaf.chain| && leaf.chain[i].route == Route(key, m);
        FindMaskFinds(leaf.chain, w, i);
      }
      FindMaskSound(leaf.chain, m);
    } else if !leaf.root {
      LeafRoute(leaf, 0);
      forall q | q in Routes(t) && q.key == key
        ensures Rank(q, w) <= Rank(leaf.chain[0].route, w)
      {
        RouteIsSearched(t, w, -1, q);
        var i :| 0 <= i < |leaf.chain| && leaf.chain[i].route == q;
      }
    }
    SearchedRoutes(t, key);
  }

  lemma {:induction false} FindMaskSound(chain: seq<Entry>, m: Mask)
    ensures var f := FindMask(chain, m);
            !f.Sentinel? && (f.Hit? ==> f.route.mask == m && exists i :: 0 <= i < |chain| && chain[i].route == f.route)
  {
    if chain != [] && chain[0].route.mask != m {
      var rest := chain[1..];
      FindMaskSound(rest, m);
      var f := FindMask(rest, m);
      if f.Hit? {
        var i :| 0 <= i < |rest| && rest[i].route == f.route;
        assert chain[i + 1].route == f.route;
      }
    }
  }

  lemma {:induction false} SearchedOk(t: Tree, w: nat, lo: int, v: Key) returns (m: int)
    requires Wf(t, w, lo)
    ensures LeafOk(Search(t, v), w, m)
  {
    if t.Node? {
      if t.b < |v| && v[t.b] { m := SearchedOk(t.right, w, t.b, v); } else { m := SearchedOk(t.left, w, t.b, v); }
    } else {
      m := lo;
    }
  }

  lemma {:induction false} SearchedRoutes(t: Tree, v: Key)
    ensures Routes(Search(t, v)) <= Routes(t)
  {
    if t.Node? {
      if t.b < |v| && v[t.b] { SearchedRoutes(t.right, v); } else { SearchedRoutes(t.left, v); }
    }
  }

  /** The top node survives every deletion, because its leaf children are sentinels. */
  lemma TopSurvives(t: Tree, w: nat, r: Route)
    requires Head(t, w) && LastRoute(t, w, -1, r)
    ensures DropLeaf(t, -1, r).Node? && DropLeaf(t, -1, r).b == 0
  {
    SearchedRoot(t, w, -1, r.key);
    NotAllBits(r.key);
    var c := if r.key[0] then t.right else t.left;
    var k := Seq(w, r.key[0]);
    assert Search(t, k) == Search(c, k);
    assert c.Leaf? ==> Search(c, k) == c && Search(c, r.key) == c;
  }

  /**
   squid_rn_delete keeps the trie invariants and removes exactly one route: the one named, or the most
   specific one of the key when no mask is given.  It fails when there is none, or only a sentinel.
   */
  lemma DeleteOk(t: Tree, w: nat, key: Key, m: Mask)
    requires Head(t, w) && |key| == w
    ensures var c := Delete(t, key, m);
            && (c.None? <==> if m.Net? then Route(key, m) !in Routes(t) else IsSentinel(key) || forall q :: q in Routes(t) ==> q.key != key)
            && (c.Some? ==>
                  var (u, r) := c.value;
                  && Head(u, w) && r in Routes(t) && r.key == key && Routes(u) == Routes(t) - {r}
                  && (m.Net? ==> r.mask == m)
                  && (m.Host? ==> forall q :: q in Routes(t) && q.key == key ==> Rank(q, w) <= Rank(r, w)))
  {
    var leaf := Search(t, key);
    SearchedLeaf(t, w, -1, key);
    if leaf.key == key {
      VictimOk(t, w, key, m);
      var f := Victim(leaf, m);
      if f.Hit? {
        var r := f.route;
        RouteInTree(t, w, -1, r);
        RouteIsSearched(t, w, -1, r);
        if leaf.root || |leaf.chain| > 1 {
          DropDupOk(t, w, -1, r);
          ShapeSearch(t, DropDup(t, -1, r), Seq(w, false));
          ShapeSearch(t, DropDup(t, -1, r), Seq(w, true));
        } else {
          DeleteLast(t, w, r);
        }
      }
    } else {
      NoRouteHere(t, w, key);
    }
  }

  lemma NoRouteHere(t: Tree, w: nat, key: Key)
    requires Head(t, w) && |key| == w && Search(t, key).key != key
    ensures forall q :: q in Routes(t) ==> q.key != key
  {
    forall q | q in Routes(t)
      ensures q.key != key
    {
      RouteInTree(t, w, -1, q);
      RouteIsSearched(t, w, -1, q);
    }
  }

  lemma DeleteLast(t: Tree, w: nat, r: Route)
    requires Head(t, w) && r in Routes(t) && RouteOk(r, w) && Search(t, r.key).key == r.key
    requires r in Routes(Search(t, r.key)) && !Search(t, r.key).root && |Search(t, r.key).chain| <= 1
    ensures Head(DropLeaf(t, -1, r), w) && Routes(DropLeaf(t, -1, r)) == Routes(t) - {r}
  {
    assert LastRoute(t, w, -1, r);
    DropLeafOk(t, w, -1, r);
    TopSurvives(t, w, r);
    SearchedRoot(t, w, -1, r.key);
    NotAllBits(r.key);
    DropLeafSearch(t, w, -1, r, Seq(w, false));
    DropLeafSearch(t, w, -1, r, Seq(w, true));
  }
}
