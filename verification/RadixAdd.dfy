/** squid_rn_addroute: insertion into the trie, promotion of annotations and lifting of the new route. */
module RadixAdd {
  import opened Options
  import opened RadixTree
  import opened RadixMatch

  // ---------------------------------------------------------------- the code

  /** The loop over the duplicate-key chain: refuse an equal mask, stop before the first less specific one. */
  function ChainAdd(chain: seq<Entry>, e: Entry): Option<seq<Entry>> {
    if chain == [] then Some([e])
    else
      var m, n := e.route.mask, chain[0].route.mask;
      if m == n then None
      else if m.Host? || (n.Net? && m.len > n.len) then Some([e] + chain)
      else
        var rest := ChainAdd(chain[1..], e);
        if rest.None? then None else Some([chain[0]] + rest.value)
  }

  /** The loop that inserts a route into an annotation list by index; an equal index is not entered. */
  function MkInsert(mk: seq<Route>, r: Route): seq<Route>
    requires r.mask.Net? && forall i :: 0 <= i < |mk| ==> mk[i].mask.Net?
  {
    if mk == [] || mk[0].mask.len < r.mask.len then [r] + mk
    else if mk[0].mask.len > r.mask.len then [mk[0]] + MkInsert(mk[1..], r)
    else mk
  }

  /** The annotation belongs at the highest ancestor whose index is not below that of the route. */
  predicate LiftsTo(r: Route, lo: int, b: int) {
    r.mask.Net? && lo < r.mask.len <= b
  }

  predicate IsLifted(r: Route, lo: int) {
    r.mask.Net? && r.mask.len <= lo
  }

  function MkAdd(mk: seq<Route>, r: Route, lo: int, b: int): seq<Route> {
    if LiftsTo(r, lo, b) && (forall i :: 0 <= i < |mk| ==> mk[i].mask.Net?) then MkInsert(mk, r) else mk
  }

  /** The key is already a leaf: add to its chain.  A sentinel leaf counts as a host route. */
  function AddDup(t: Tree, lo: int, r: Route): Option<Tree> {
    match t
    case Leaf(key, root, chain) =>
      if root && r.mask.Host? then None
      else
        var c := ChainAdd(chain, Entry(r, IsLifted(r, lo)));
        if c.None? then None else Some(Leaf(key, root, c.value))
    case Node(b, mk, left, right) =>
      if b < |r.key| && r.key[b] then
        var c := AddDup(right, b, r);
        if c.None? then None else Some(Node(b, MkAdd(mk, r, lo, b), left, c.value))
      else
        var c := AddDup(left, b, r);
        if c.None? then None else Some(Node(b, MkAdd(mk, r, lo, b), c.value, right))
  }

  /** "Promote general routes from below": the sibling is a leaf. */
  function PromotedRoutes(chain: seq<Entry>, d: int): seq<Route> {
    if chain == [] then [] else
    (if IsLifted(chain[0].route, d) && !chain[0].lifted then [chain[0].route] else []) + PromotedRoutes(chain[1..], d)
  }

  function PromotedChain(chain: seq<Entry>, d: int): seq<Entry> {
    if chain == [] then [] else
    [if IsLifted(chain[0].route, d) then chain[0].(lifted := true) else chain[0]] + PromotedChain(chain[1..], d)
  }

  /** "Skip over masks whose index is > that of new node": the sibling is internal. */
  function SkipLonger(mk: seq<Route>, d: int): nat {
    if mk == [] || (mk[0].mask.Net? && mk[0].mask.len <= d) then 0 else 1 + SkipLonger(mk[1..], d)
  }

  lemma SkipBound(mk: seq<Route>, d: int)
    ensures SkipLonger(mk, d) <= |mk|
  {}

  /** squid_rn_insert at the point where the new pair of nodes goes, and the promotion that follows. */
  function Promote(x: Tree, d: int): (seq<Route>, Tree) {
    match x
    case Leaf(key, root, chain) => (PromotedRoutes(chain, d), Leaf(key, root, PromotedChain(chain, d)))
    case Node(b, mk, left, right) =>
      SkipBound(mk, d);
      (mk[SkipLonger(mk, d)..], Node(b, mk[..SkipLonger(mk, d)], left, right))
  }

  /** The key is new and first differs at bit d from the leaf the search found. */
  function NewPair(t: Tree, lo: int, r: Route, d: nat): Tree
    requires d < |r.key|
  {
    if t.Node? && t.b < d then
      if t.b < |r.key| && r.key[t.b]
      then Node(t.b, MkAdd(t.mk, r, lo, t.b), t.left, NewPair(t.right, t.b, r, d))
      else Node(t.b, MkAdd(t.mk, r, lo, t.b), NewPair(t.left, t.b, r, d), t.right)
    else
      var leaf := Leaf(r.key, false, [Entry(r, IsLifted(r, d))]);
      var (mk, x) := Promote(t, d);
      if r.key[d] then Node(d, MkAdd(mk, r, lo, d), x, leaf) else Node(d, MkAdd(mk, r, lo, d), leaf, x)
  }

  /** squid_rn_addroute; None is its NULL return, which leaves the tree as it was. */
  function AddRoute(t: Tree, r: Route): Option<Tree>
    requires |Search(t, r.key).key| == |r.key|
  {
    var leaf := Search(t, r.key);
    if leaf.key == r.key then AddDup(t, -1, r)
    else Some(NewPair(t, -1, r, FirstDiff(leaf.key, r.key)))
  }

  // ---------------------------------------------------------------- chains

  /** Where ChainAdd inserts, or what it collides with. */
  lemma {:induction false} ChainAddAt(chain: seq<Entry>, e: Entry, w: nat) returns (k: int)
    requires ChainSorted(chain, w)
    requires forall i :: 0 <= i < |chain| ==> chain[i].route.mask.Net? ==> chain[i].route.mask.len <= w
    requires e.route.mask.Net? ==> e.route.mask.len <= w
    ensures 0 <= k <= |chain|
    ensures match ChainAdd(chain, e)
            case None => k < |chain| && chain[k].route.mask == e.route.mask
            case Some(c) =>
              && c == chain[..k] + [e] + chain[k..]
              && (forall i :: 0 <= i < k ==> Rank(chain[i].route, w) > Rank(e.route, w))
              && (forall i :: k <= i < |chain| ==> Rank(e.route, w) > Rank(chain[i].route, w))
  {
    k := 0;
    if chain != [] {
      var m, n := e.route.mask, chain[0].route.mask;
      if m == n {
      } else if m.Host? || (n.Net? && m.len > n.len) {
        assert forall i :: 0 < i < |chain| ==> Rank(chain[0].route, w) > Rank(chain[i].route, w);
      } else {
        var rest := chain[1..];
        assert forall i :: 0 <= i < |rest| ==> rest[i] == chain[i + 1];
        assert ChainSorted(rest, w);
        k := ChainAddAt(rest, e, w);
        if ChainAdd(rest, e).Some? {
          ConsInserted(chain, e, k);
          assert Rank(chain[0].route, w) > Rank(e.route, w);
        }
        k := k + 1;
      }
    }
  }

  lemma ConsInserted(chain: seq<Entry>, e: Entry, k: int)
    requires chain != [] && 0 <= k <= |chain| - 1
    ensures [chain[0]] + (chain[1..][..k] + [e] + chain[1..][k..]) == chain[..k + 1] + [e] + chain[k + 1..]
  {}

  lemma InsertedSorted(chain: seq<Entry>, e: Entry, w: nat, k: int)
    requires ChainSorted(chain, w) && 0 <= k <= |chain|
    requires forall i :: 0 <= i < k ==> Rank(chain[i].route, w) > Rank(e.route, w)
    requires forall i :: k <= i < |chain| ==> Rank(e.route, w) > Rank(chain[i].route, w)
    ensures ChainSorted(chain[..k] + [e] + chain[k..], w)
  {}

  lemma {:induction false} LiftableNets(chain: seq<Entry>, lo: int, hi: int)
    ensures forall i :: 0 <= i < |Liftable(chain, lo, hi)| ==> Liftable(chain, lo, hi)[i].mask.Net?
  {
    if chain != [] { LiftableNets(chain[1..], lo, hi); }
  }

  /** Adding to the chain of the leftmost leaf and to the annotation list keeps them in step. */
  lemma {:induction false} LiftableAdd(chain: seq<Entry>, e: Entry, w: nat, lo: int, hi: int)
    requires ChainSorted(chain, w) && ChainAdd(chain, e).Some?
    ensures Liftable(ChainAdd(chain, e).value, lo, hi) == MkAdd(Liftable(chain, lo, hi), e.route, lo, hi)
  {
    LiftableNets(chain, lo, hi);
    if chain != [] {
      var m, n := e.route.mask, chain[0].route.mask;
      var rest := chain[1..];
      assert ChainSorted(rest, w);
      LiftableNets(rest, lo, hi);
      if m.Host? || (n.Net? && m.len > n.len) {
        assert ([e] + chain)[1..] == chain;
        LiftableFront(chain, e.route, w, lo, hi);
      } else {
        LiftableAdd(rest, e, w, lo, hi);
        var c := ChainAdd(rest, e).value;
        assert ([chain[0]] + c)[1..] == c && ([chain[0]] + c)[0] == chain[0];
        var head := if n.Net? && lo < n.len <= hi then [chain[0].route] else [];
        assert Liftable([chain[0]] + c, lo, hi) == head + Liftable(c, lo, hi);
        assert Liftable(chain, lo, hi) == head + Liftable(rest, lo, hi);
        assert head == [] ==> head + Liftable(rest, lo, hi) == Liftable(rest, lo, hi) && head + Liftable(c, lo, hi) == Liftable(c, lo, hi);
        if LiftsTo(e.route, lo, hi) && head != [] {
          var mk := head + Liftable(rest, lo, hi);
          assert mk[0] == chain[0].route && mk[1..] == Liftable(rest, lo, hi);
          assert MkInsert(mk, e.route) == [mk[0]] + MkInsert(mk[1..], e.route);
        }
      }
    } else {
      assert [e][1..] == [];
    }
  }

  lemma LiftableFront(chain: seq<Entry>, r: Route, w: nat, lo: int, hi: int)
    requires ChainSorted(chain, w) && chain != []
    requires r.mask.Net? ==> chain[0].route.mask.Net? && r.mask.len > chain[0].route.mask.len
    ensures LiftsTo(r, lo, hi) ==> MkAdd(Liftable(chain, lo, hi), r, lo, hi) == [r] + Liftable(chain, lo, hi)
  {
    LiftableNets(chain, lo, hi);
    var mk := Liftable(chain, lo, hi);
    assert forall i :: 0 < i < |chain| ==> Rank(chain[0].route, w) > Rank(chain[i].route, w);
    if LiftsTo(r, lo, hi) && mk != [] {
      LiftableMember(chain, lo, hi, mk[0]);
    }
  }

  // ---------------------------------------------------------------- shapes

  /** The same keys in the same places. */
  ghost predicate SameShape(t: Tree, u: Tree) {
    match t
    case Leaf(key, root, _) => u.Leaf? && u.key == key && u.root == root
    case Node(b, _, l, r) => u.Node? && u.b == b && SameShape(l, u.left) && SameShape(r, u.right)
  }

  lemma {:induction false} ShapeRefl(t: Tree)
    ensures SameShape(t, t)
  {
    if t.Node? { ShapeRefl(t.left); ShapeRefl(t.right); }
  }

  lemma {:induction false} ShapeAgree(t: Tree, u: Tree, k: Key, n: nat)
    requires SameShape(t, u) && Agree(t, k, n)
    ensures Agree(u, k, n)
  {
    if t.Node? { ShapeAgree(t.left, u.left, k, n); ShapeAgree(t.right, u.right, k, n); }
  }

  lemma {:induction false} ShapeBit(t: Tree, u: Tree, n: nat, x: bool)
    requires SameShape(t, u) && BitIs(t, n, x)
    ensures BitIs(u, n, x)
  {
    if t.Node? { ShapeBit(t.left, u.left, n, x); ShapeBit(t.right, u.right, n, x); }
  }

  lemma {:induction false} ShapeLeftmost(t: Tree, u: Tree)
    requires SameShape(t, u)
    ensures Leftmost(u).key == Leftmost(t).key
  {
    if t.Node? { ShapeLeftmost(t.left, u.left); }
  }

  lemma {:induction false} ShapeSearch(t: Tree, u: Tree, v: Key)
    requires SameShape(t, u)
    ensures Search(u, v).key == Search(t, v).key && Search(u, v).root == Search(t, v).root
  {
    if t.Node? {
      if t.b < |v| && v[t.b] { ShapeSearch(t.right, u.right, v); } else { ShapeSearch(t.left, u.left, v); }
    }
  }

  /** Routes with key k lie where the search for k goes. */
  lemma RouteOnPath(t: Tree, w: nat, lo: int, r: Route)
    requires t.Node? && Wf(t, w, lo) && r in Routes(t)
    ensures |r.key| == w && r in Routes(if r.key[t.b] then t.right else t.left)
  {
    if r in Routes(t.left) {
      RouteBit(t.left, w, t.b, r, t.b, false);
    } else {
      RouteBit(t.right, w, t.b, r, t.b, true);
    }
  }

  /** A key that is zero from the index of t on leads to the leftmost leaf. */
  lemma {:induction false} ZeroSearch(t: Tree, w: nat, lo: int, k: Key)
    requires Wf(t, w, lo) && |k| == w && forall j :: 0 <= j < w && t.Node? && t.b <= j ==> !k[j]
    ensures Search(t, k) == Leftmost(t)
  {
    if t.Node? {
      assert !k[t.b];
      ZeroSearch(t.left, w, t.b, k);
    }
  }

  /** How the leftmost chain changed: not at all, or by the new route. */
  ghost predicate LeftGrew(t: Tree, u: Tree, r: Route) {
    var c, c' := Leftmost(t).chain, Leftmost(u).chain;
    if Leftmost(t).key == r.key
    then exists x: bool :: ChainAdd(c, Entry(r, x)) == Some(c')
    else c' == c
  }

  lemma LeafAddOk(t: Tree, w: nat, lo: int, r: Route)
    requires t.Leaf? && Wf(t, w, lo) && RouteOk(r, w) && t.key == r.key
    ensures var c := AddDup(t, lo, r);
            && (c.None? <==> r in Routes(t) || (t.root && r.mask.Host?))
            && (c.Some? ==> Wf(c.value, w, lo) && Routes(c.value) == Routes(t) + {r} && SameShape(t, c.value) && LeftGrew(t, c.value, r))
  {
    var e := Entry(r, IsLifted(r, lo));
    assert forall i :: 0 <= i < |t.chain| ==> EntryOk(t.chain[i], t.key, lo);
    var k := ChainAddAt(t.chain, e, w);
    var c := ChainAdd(t.chain, e);
    if c.None? {
      LeafRoute(t, k);
    } else if !(t.root && r.mask.Host?) {
      var u := AddDup(t, lo, r).value;
      InsertedSorted(t.chain, e, w, k);
      forall i | 0 <= i < |u.chain|
        ensures EntryOk(u.chain[i], u.key, lo) && (u.root ==> u.chain[i].route.mask.Net?)
      {
        assert u.chain[i] == if i < k then t.chain[i] else if i == k then e else t.chain[i - 1];
      }
      InsertedRoutes(t, u, e, k);
      assert ChainAdd(Leftmost(t).chain, Entry(r, IsLifted(r, lo))) == Some(u.chain);
    }
  }

  lemma InsertedRoutes(t: Tree, u: Tree, e: Entry, k: int)
    requires t.Leaf? && u.Leaf? && 0 <= k <= |t.chain| && u.chain == t.chain[..k] + [e] + t.chain[k..]
    ensures Routes(u) == Routes(t) + {e.route}
  {
    assert u.chain[k] == e;
    forall i | 0 <= i < |t.chain|
      ensures t.chain[i].route in Routes(u)
    {
      assert u.chain[if i < k then i else i + 1] == t.chain[i];
    }
    forall i | 0 <= i < |u.chain|
      ensures u.chain[i].route in Routes(t) + {e.route}
    {
      assert u.chain[i] == if i < k then t.chain[i] else if i == k then e else t.chain[i - 1];
    }
  }

  /** The annotation list of a node follows the chain of its leftmost leaf when r is added below it. */
  lemma MkFollows(t: Tree, w: nat, lo: int, l': Tree, r: Route)
    requires t.Node? && Wf(t, w, lo) && RouteOk(r, w) && Search(t, r.key).key == r.key
    requires LeftGrew(t.left, l', r)
    ensures MkAdd(t.mk, r, lo, t.b) == Liftable(Leftmost(l').chain, lo, t.b)
  {
    var m := LeftmostWf(t, w, lo);
    if LiftsTo(r, lo, t.b) {
      ZeroSearch(t, w, lo, r.key);
    }
    LiftableNets(Leftmost(t).chain, lo, t.b);
    if Leftmost(t).key == r.key {
      var x: bool :| ChainAdd(Leftmost(t.left).chain, Entry(r, x)) == Some(Leftmost(l').chain);
      LiftableAdd(Leftmost(t).chain, Entry(r, x), w, lo, t.b);
    }
  }

  lemma {:induction false} AddDupOk(t: Tree, w: nat, lo: int, r: Route)
    requires Wf(t, w, lo) && RouteOk(r, w) && Search(t, r.key).key == r.key
    ensures var c := AddDup(t, lo, r);
            && (c.None? <==> r in Routes(t) || (Search(t, r.key).root && r.mask.Host?))
            && (c.Some? ==> Wf(c.value, w, lo) && Routes(c.value) == Routes(t) + {r} && SameShape(t, c.value) && LeftGrew(t, c.value, r))
  {
    if t.Leaf? {
      LeafAddOk(t, w, lo, r);
    } else {
      hide Liftable, MkAdd, LeafOk, RouteOk;
      if r in Routes(t) { RouteOnPath(t, w, lo, r); }
      var k := Leftmost(t.left).key;
      if r.key[t.b] {
        AddDupOk(t.right, w, t.b, r);
        var c := AddDup(t.right, t.b, r);
        if c.Some? {
          ShapeRefl(t.left);
          ShapeAgree(t.right, c.value, k, t.b);
          ShapeBit(t.right, c.value, t.b, true);
          LeftIsNotRight(t, w, lo, r.key);
          MkFollows(t, w, lo, t.left, r);
        }
      } else {
        AddDupOk(t.left, w, t.b, r);
        var c := AddDup(t.left, t.b, r);
        if c.Some? {
          ShapeRefl(t.right);
          ShapeLeftmost(t.left, c.value);
          ShapeAgree(t.left, c.value, k, t.b);
          ShapeBit(t.left, c.value, t.b, false);
          MkFollows(t, w, lo, c.value, r);
        }
      }
    }
  }

  lemma LeftIsNotRight(t: Tree, w: nat, lo: int, k: Key)
    requires t.Node? && Wf(t, w, lo) && |k| == w && k[t.b]
    ensures Leftmost(t).key != k
  {
    LeftmostBit(t.left, t.b, false);
  }

  lemma {:induction false} LeftmostBit(t: Tree, n: nat, x: bool)
    requires BitIs(t, n, x)
    ensures BitIs(Leftmost(t), n, x)
  {
    if t.Node? { LeftmostBit(t.left, n, x); }
  }

  // ---------------------------------------------------------------- a new pair of nodes

  lemma {:induction false} PromotedOk(chain: seq<Entry>, key: Key, w: nat, lo: int, d: int)
    requires ChainSorted(chain, w) && lo <= d && |key| == w
    requires forall i :: 0 <= i < |chain| ==> EntryOk(chain[i], key, lo)
    ensures var c := PromotedChain(chain, d);
            && |c| == |chain|
            && (forall i :: 0 <= i < |c| ==> c[i].route == chain[i].route && EntryOk(c[i], key, d))
    ensures PromotedRoutes(chain, d) == Liftable(chain, lo, d)
  {
    if chain != [] {
      var rest := chain[1..];
      assert forall i :: 0 <= i < |rest| ==> rest[i] == chain[i + 1];
      assert ChainSorted(rest, w);
      PromotedOk(rest, key, w, lo, d);
      assert EntryOk(chain[0], key, lo);
    }
  }

  lemma {:induction false} LiftableSame(c: seq<Entry>, c': seq<Entry>, lo: int, hi: int)
    requires |c| == |c'| && forall i :: 0 <= i < |c| ==> c'[i].route == c[i].route
    ensures Liftable(c', lo, hi) == Liftable(c, lo, hi)
  {
    if c != [] {
      assert forall i :: 0 <= i < |c| - 1 ==> c'[1..][i] == c'[i + 1] && c[1..][i] == c[i + 1];
      LiftableSame(c[1..], c'[1..], lo, hi);
    }
  }

  /** An annotation list splits where a new index d falls between lo and hi. */
  lemma {:induction false} LiftableSplit(chain: seq<Entry>, w: nat, lo: int, d: int, hi: int)
    requires ChainSorted(chain, w) && lo <= d <= hi
    ensures Liftable(chain, lo, hi) == Liftable(chain, d, hi) + Liftable(chain, lo, d)
  {
    if chain != [] {
      var rest, r := chain[1..], chain[0].route;
      assert ChainSorted(rest, w);
      LiftableSplit(rest, w, lo, d, hi);
      var a, c := Liftable(rest, d, hi), Liftable(rest, lo, d);
      if LiftsTo(r, d, hi) {
        assert Liftable(chain, d, hi) == [r] + a && Liftable(chain, lo, d) == [] + c == c;
        assert [r] + (a + c) == ([r] + a) + c;
      } else if LiftsTo(r, lo, d) {
        LiftableAbove(chain, w, d, hi);
        assert [] + a == a && Liftable(chain, lo, d) == [r] + c;
        assert a + ([r] + c) == [r] + (a + c);
      } else {
        assert [] + a == a && [] + c == c && [] + (a + c) == a + c;
      }
    }
  }

  lemma LiftableAbove(chain: seq<Entry>, w: nat, d: int, hi: int)
    requires ChainSorted(chain, w) && chain != [] && chain[0].route.mask.Net? && chain[0].route.mask.len <= d
    ensures Liftable(chain, d, hi) == []
  {
    var mk := Liftable(chain, d, hi);
    assert forall i :: 0 < i < |chain| ==> Rank(chain[0].route, w) > Rank(chain[i].route, w);
    if mk != [] {
      LiftableMember(chain, d, hi, mk[0]);
    }
  }

  lemma {:induction false} SkipSplits(a: seq<Route>, c: seq<Route>, d: int)
    requires forall i :: 0 <= i < |a| ==> a[i].mask.Net? && a[i].mask.len > d
    requires forall i :: 0 <= i < |c| ==> c[i].mask.Net? && c[i].mask.len <= d
    ensures SkipLonger(a + c, d) == |a|
  {
    if a == [] {
      assert a + c == c;
    } else {
      assert (a + c)[1..] == a[1..] + c;
      SkipSplits(a[1..], c, d);
    }
  }

  lemma {:induction false} LiftableRange(chain: seq<Entry>, lo: int, hi: int)
    ensures forall i :: 0 <= i < |Liftable(chain, lo, hi)| ==> LiftsTo(Liftable(chain, lo, hi)[i], lo, hi)
  {
    if chain != [] { LiftableRange(chain[1..], lo, hi); }
  }

  /** Pushing a subtree one level down: its annotations divide between it and the new node at d. */
  lemma PromoteOk(x: Tree, w: nat, lo: int, d: nat)
    requires Wf(x, w, lo) && lo < d < w && (x.Node? ==> d < x.b)
    ensures var (mk, u) := Promote(x, d);
            && Wf(u, w, d) && SameShape(x, u) && Routes(u) == Routes(x)
            && mk == Liftable(Leftmost(x).chain, lo, d)
            && |Leftmost(u).chain| == |Leftmost(x).chain|
            && (forall i :: 0 <= i < |Leftmost(x).chain| ==> Leftmost(u).chain[i].route == Leftmost(x).chain[i].route)
  {
    if x.Leaf? {
      PromotedOk(x.chain, x.key, w, lo, d);
      var u := Promote(x, d).1;
      assert ChainSorted(u.chain, w);
      assert Routes(u) == Routes(x);
    } else {
      var m := LeftmostWf(x, w, lo);
      var chain := Leftmost(x).chain;
      LiftableSplit(chain, w, lo, d, x.b);
      var a, c := Liftable(chain, d, x.b), Liftable(chain, lo, d);
      LiftableRange(chain, d, x.b);
      LiftableRange(chain, lo, d);
      SkipSplits(a, c, d);
      assert (a + c)[|a|..] == c && (a + c)[..|a|] == a;
      ShapeRefl(x.left);
      ShapeRefl(x.right);
    }
  }

  /** Keys that all have a one bit at d carry no route of index d or less. */
  lemma OneBitBlocksLifting(x: Tree, w: nat, m: int, lo: int, hi: int, d: nat)
    requires Wf(x, w, m) && BitIs(x, d, true) && hi <= d < w
    ensures Liftable(Leftmost(x).chain, lo, hi) == []
  {
    var mk, first := Liftable(Leftmost(x).chain, lo, hi), Leftmost(x);
    var n := LeftmostWf(x, w, m);
    LeftmostBit(x, d, true);
    assert forall i :: 0 <= i < |first.chain| ==> EntryOk(first.chain[i], first.key, n);
    if mk != [] {
      LiftableMember(first.chain, lo, hi, mk[0]);
    }
  }

  /** x is where a route r that first differs at bit d from the searched leaf is inserted. */
  ghost predicate InsertsAt(x: Tree, r: Route, d: nat) {
    && (x.Node? ==> d < x.b)
    && d < |r.key| && Agree(x, r.key, d) && BitIs(x, d, !r.key[d])
  }

  lemma {:induction false} AgreeTransfers(t: Tree, k: Key, n: nat, k': Key, d: nat)
    requires Agree(t, k, n) && d < n && d < |k'| && |k| == |k'|
    requires (forall j :: 0 <= j < d ==> k[j] == k'[j]) && k[d] != k'[d]
    ensures Agree(t, k', d) && BitIs(t, d, !k'[d])
  {
    if t.Node? { AgreeTransfers(t.left, k, n, k', d); AgreeTransfers(t.right, k, n, k', d); }
  }

  lemma {:induction false} AgreeSwap(t: Tree, k: Key, n: nat, k': Key)
    requires Agree(t, k, n) && n <= |k'| && n <= |k| && forall j :: 0 <= j < n ==> k[j] == k'[j]
    ensures Agree(t, k', n)
  {
    if t.Node? { AgreeSwap(t.left, k, n, k'); AgreeSwap(t.right, k, n, k'); }
  }

  lemma NodeAgrees(t: Tree, w: nat, lo: int)
    requires t.Node? && Wf(t, w, lo)
    ensures Agree(t, Leftmost(t).key, t.b)
  {}

  /** The descent of squid_rn_insert stops exactly where the new leaf fits. */
  lemma StopsRight(t: Tree, w: nat, lo: int, r: Route, d: nat)
    requires Wf(t, w, lo) && |r.key| == w && |Search(t, r.key).key| == w
    requires d == FirstDiff(Search(t, r.key).key, r.key) < w && (t.Node? ==> d <= t.b)
    ensures InsertsAt(t, r, d)
  {
    if t.Node? {
      SearchedLeaf(t, w, lo, r.key);
      var leaf, first := Search(t, r.key), Leftmost(t);
      var m := LeftmostWf(t, w, lo);
      NodeAgrees(t, w, lo);
      SearchedAgree(t, r.key, first.key, t.b);
      SearchedBit(t, w, lo, r.key);
      assert d != t.b;
      AgreeTransfers(t, first.key, t.b, r.key, d);
    }
  }

  lemma SearchedBit(t: Tree, w: nat, lo: int, v: Key)
    requires t.Node? && Wf(t, w, lo) && |v| == w
    ensures |Search(t, v).key| == w && Search(t, v).key[t.b] == v[t.b]
  {
    SearchedLeaf(t, w, lo, v);
    if v[t.b] {
      SearchedBitIs(t.right, v, t.b, true);
    } else {
      SearchedBitIs(t.left, v, t.b, false);
    }
  }

  lemma NewLeafOk(r: Route, w: nat, d: nat)
    requires RouteOk(r, w) && d < w && r.key != Seq(w, false) && r.key != Seq(w, true)
    ensures var leaf := Leaf(r.key, false, [Entry(r, IsLifted(r, d))]); Wf(leaf, w, d) && Routes(leaf) == {r}
    ensures var chain := [Entry(r, IsLifted(r, d))]; forall lo, hi :: Liftable(chain, lo, hi) == MkAdd([], r, lo, hi)
  {
    var leaf := Leaf(r.key, false, [Entry(r, IsLifted(r, d))]);
    LeafRoute(leaf, 0);
    NotAllBits(r.key);
    assert leaf.chain[1..] == [];
  }

  /** The new pair of nodes in place of x. */
  lemma PairOk(x: Tree, w: nat, lo: int, r: Route, d: nat)
    requires Wf(x, w, lo) && RouteOk(r, w) && lo < d < w && InsertsAt(x, r, d)
    requires r.key != Seq(w, false) && r.key != Seq(w, true)
    ensures Wf(NewPair(x, lo, r, d), w, lo)
    ensures Routes(NewPair(x, lo, r, d)) == Routes(x) + {r}
  {
    PromoteOk(x, w, lo, d);
    NewLeafOk(r, w, d);
    var u := Promote(x, d).1;
    ShapeAgree(x, u, r.key, d);
    ShapeBit(x, u, d, !r.key[d]);
    LiftableSame(Leftmost(x).chain, Leftmost(u).chain, lo, d);
    hide Liftable, LeafOk, SameShape, Promote;
    if r.key[d] {
      assert !LiftsTo(r, lo, d);
      var m := LeftmostWf(u, w, d);
      LeftmostAgree(u, r.key, d);
      AgreeSwap(u, r.key, d, Leftmost(u).key);
    } else {
      OneBitBlocksLifting(x, w, lo, lo, d, d);
    }
  }

  lemma {:induction false} LeftmostAgree(t: Tree, k: Key, n: nat)
    requires Agree(t, k, n)
    ensures Agree(Leftmost(t), k, n)
  {
    if t.Node? { LeftmostAgree(t.left, k, n); }
  }

  function Seq(w: nat, x: bool): Key {
    seq(w, _ => x)
  }

  lemma NotAllBits(k: Key)
    ensures AllBits(k, false) <==> k == Seq(|k|, false)
    ensures AllBits(k, true) <==> k == Seq(|k|, true)
  {}

  /** How annotation lists above the insertion point must change. */
  lemma {:induction false} NewPairLeft(t: Tree, w: nat, m: int, r: Route, d: nat, lo: int, hi: int)
    requires Wf(t, w, m) && RouteOk(r, w) && hi <= m < d < w
    requires |Search(t, r.key).key| == w && FirstDiff(Search(t, r.key).key, r.key) == d
    ensures Liftable(Leftmost(NewPair(t, m, r, d)).chain, lo, hi) == MkAdd(Liftable(Leftmost(t).chain, lo, hi), r, lo, hi)
  {
    if t.Node? && t.b < d {
      if r.key[t.b] {
        assert !LiftsTo(r, lo, hi);
      } else {
        NewPairLeft(t.left, w, t.b, r, d, lo, hi);
      }
    } else {
      StopsRight(t, w, m, r, d);
      PromoteOk(t, w, m, d);
      var u := Promote(t, d).1;
      if r.key[d] {
        LiftableSame(Leftmost(t).chain, Leftmost(u).chain, lo, hi);
      } else {
        OneBitBlocksLifting(t, w, m, lo, hi, d);
        var chain := [Entry(r, IsLifted(r, d))];
        assert chain[1..] == [];
        assert MkAdd([], r, lo, hi) == Liftable(chain, lo, hi);
      }
    }
  }

  lemma {:induction false} NewPairAgree(t: Tree, w: nat, m: int, r: Route, d: nat, k: Key, n: nat)
    requires Wf(t, w, m) && |r.key| == w && m < d < w && n <= d
    requires Agree(t, k, n) && Agree(Leaf(r.key, false, []), k, n)
    ensures Agree(NewPair(t, m, r, d), k, n)
  {
    if t.Node? && t.b < d {
      if r.key[t.b] { NewPairAgree(t.right, w, t.b, r, d, k, n); } else { NewPairAgree(t.left, w, t.b, r, d, k, n); }
    } else {
      PromoteShape(t, d);
      ShapeAgree(t, Promote(t, d).1, k, n);
    }
  }

  lemma {:induction false} NewPairBit(t: Tree, w: nat, m: int, r: Route, d: nat, n: nat, x: bool)
    requires Wf(t, w, m) && |r.key| == w && m < d < w && n < w
    requires BitIs(t, n, x) && r.key[n] == x
    ensures BitIs(NewPair(t, m, r, d), n, x)
  {
    if t.Node? && t.b < d {
      if r.key[t.b] { NewPairBit(t.right, w, t.b, r, d, n, x); } else { NewPairBit(t.left, w, t.b, r, d, n, x); }
    } else {
      PromoteShape(t, d);
      ShapeBit(t, Promote(t, d).1, n, x);
    }
  }

  lemma PromoteShape(x: Tree, d: int)
    ensures SameShape(x, Promote(x, d).1)
  {
    if x.Node? { ShapeRefl(x.left); ShapeRefl(x.right); }
  }

  /** The keys of a tree agree with the searched leaf up to the index of the root, hence with a key that differs later. */
  lemma PathAgrees(t: Tree, w: nat, lo: int, r: Route, d: nat)
    requires t.Node? && Wf(t, w, lo) && |r.key| == w && |Search(t, r.key).key| == w
    requires d == FirstDiff(Search(t, r.key).key, r.key) && t.b < d
    ensures Agree(t, r.key, t.b) && Agree(Leaf(r.key, false, []), Leftmost(t).key, t.b)
  {
    var m := LeftmostWf(t, w, lo);
    NodeAgrees(t, w, lo);
    SearchedAgree(t, r.key, Leftmost(t).key, t.b);
    AgreeSwap(t, Leftmost(t).key, t.b, r.key);
  }

  lemma {:induction false} NewPairOk(t: Tree, w: nat, lo: int, r: Route, d: nat)
    requires Wf(t, w, lo) && RouteOk(r, w) && lo < d < w
    requires |Search(t, r.key).key| == w && d == FirstDiff(Search(t, r.key).key, r.key)
    requires r.key != Seq(w, false) && r.key != Seq(w, true)
    ensures Wf(NewPair(t, lo, r, d), w, lo)
    ensures Routes(NewPair(t, lo, r, d)) == Routes(t) + {r}
  {
    if t.Node? && t.b < d {
      if r.key[t.b] {
        NewPairOk(t.right, w, t.b, r, d);
        NewPairGoesRight(t, w, lo, r, d);
      } else {
        NewPairOk(t.left, w, t.b, r, d);
        NewPairGoesLeft(t, w, lo, r, d);
      }
    } else {
      StopsRight(t, w, lo, r, d);
      PairOk(t, w, lo, r, d);
    }
  }

  lemma NewPairGoesRight(t: Tree, w: nat, lo: int, r: Route, d: nat)
    requires t.Node? && Wf(t, w, lo) && RouteOk(r, w) && t.b < d < w && r.key[t.b]
    requires |Search(t, r.key).key| == w && d == FirstDiff(Search(t, r.key).key, r.key)
    requires Wf(NewPair(t.right, t.b, r, d), w, t.b)
    ensures Wf(NewPair(t, lo, r, d), w, lo)
  {
    PathAgrees(t, w, lo, r, d);
    var m := LeftmostWf(t, w, lo);
    NewPairAgree(t.right, w, t.b, r, d, Leftmost(t).key, t.b);
    NewPairBit(t.right, w, t.b, r, d, t.b, true);
    assert !LiftsTo(r, lo, t.b);
  }

  lemma NewPairGoesLeft(t: Tree, w: nat, lo: int, r: Route, d: nat)
    requires t.Node? && Wf(t, w, lo) && RouteOk(r, w) && t.b < d < w && !r.key[t.b]
    requires |Search(t, r.key).key| == w && d == FirstDiff(Search(t, r.key).key, r.key)
    requires Wf(NewPair(t.left, t.b, r, d), w, t.b)
    ensures Wf(NewPair(t, lo, r, d), w, lo)
  {
    assert |r.key| == w;
    hide Liftable, LeafOk, RouteOk, MkAdd;
    NewPairLeft(t.left, w, t.b, r, d, lo, t.b);
    NewPairBit(t.left, w, t.b, r, d, t.b, false);
    NewPairLeftKeys(t, w, lo, r, d);
  }

  /** Going left, everything still agrees with the (possibly new) leftmost key. */
  lemma NewPairLeftKeys(t: Tree, w: nat, lo: int, r: Route, d: nat)
    requires t.Node? && Wf(t, w, lo) && |r.key| == w && t.b < d < w && |Search(t, r.key).key| == w
    requires d == FirstDiff(Search(t, r.key).key, r.key) && !r.key[t.b]
    requires Wf(NewPair(t.left, t.b, r, d), w, t.b)
    ensures var l := NewPair(t.left, t.b, r, d); Agree(l, Leftmost(l).key, t.b) && Agree(t.right, Leftmost(l).key, t.b)
  {
    var l := NewPair(t.left, t.b, r, d);
    PathAgrees(t, w, lo, r, d);
    NewPairAgree(t.left, w, t.b, r, d, r.key, t.b);
    var m := LeftmostWf(l, w, t.b);
    LeftmostAgree(l, r.key, t.b);
    AgreeSwap(l, r.key, t.b, Leftmost(l).key);
    AgreeSwap(t.right, r.key, t.b, Leftmost(l).key);
  }

  /** Keys that were found before are still found, and so is the new one. */
  lemma {:induction false} NewPairSearch(t: Tree, w: nat, lo: int, r: Route, d: nat, k: Key)
    requires Wf(t, w, lo) && |r.key| == w && lo < d < w && |k| == w && |Search(t, r.key).key| == w
    requires d == FirstDiff(Search(t, r.key).key, r.key)
    requires k == r.key || Search(t, k).key == k
    ensures Search(NewPair(t, lo, r, d), k).key == k
  {
    if t.Node? && t.b < d {
      if k[t.b] == r.key[t.b] {
        NewPairSearch(if r.key[t.b] then t.right else t.left, w, t.b, r, d, k);
      }
    } else {
      StopsRight(t, w, lo, r, d);
      PromoteShape(t, d);
      if k != r.key {
        SearchedBitIs(t, k, d, !r.key[d]);
        ShapeSearch(t, Promote(t, d).1, k);
      }
    }
  }

  // ---------------------------------------------------------------- whole trees

  /** A tree as squid_rn_inithead leaves it and the operations keep it: both sentinel keys have their leaf. */
  ghost predicate Head(t: Tree, w: nat) {
    && t.Node? && t.b == 0 && Wf(t, w, -1)
    && Search(t, Seq(w, false)).key == Seq(w, false)
    && Search(t, Seq(w, true)).key == Seq(w, true)
  }

  predicate IsSentinel(k: Key) {
    k == Seq(|k|, false) || k == Seq(|k|, true)
  }

  /**
   squid_rn_addroute keeps the trie invariants and adds exactly the new route; it refuses a route that
   is already there, and a host route for a sentinel key.
   */
  lemma AddRouteOk(t: Tree, w: nat, r: Route)
    requires Head(t, w) && RouteOk(r, w)
    ensures |Search(t, r.key).key| == w
    ensures var c := AddRoute(t, r);
            && (c.None? <==> r in Routes(t) || (IsSentinel(r.key) && r.mask.Host?))
            && (c.Some? ==> Head(c.value, w) && Routes(c.value) == Routes(t) + {r})
  {
    var leaf := Search(t, r.key);
    SearchedLeaf(t, w, -1, r.key);
    SearchedRoot(t, w, -1, r.key);
    NotAllBits(leaf.key);
    if leaf.key == r.key {
      AddDupOk(t, w, -1, r);
      var c := AddDup(t, -1, r);
      if c.Some? {
        ShapeSearch(t, c.value, Seq(w, false));
        ShapeSearch(t, c.value, Seq(w, true));
      }
    } else {
      var d := FirstDiff(leaf.key, r.key);
      SearchedBit(t, w, -1, r.key);
      assert 0 < d;
      NewPairOk(t, w, -1, r, d);
      NewPairSearch(t, w, -1, r, d, Seq(w, false));
      NewPairSearch(t, w, -1, r, d, Seq(w, true));
      if r in Routes(t) { RouteIsSearched(t, w, -1, r); }
    }
  }

  lemma {:induction false} SearchedRoot(t: Tree, w: nat, lo: int, v: Key)
    requires Wf(t, w, lo)
    ensures Search(t, v).root <==> AllBits(Search(t, v).key, false) || AllBits(Search(t, v).key, true)
  {
    if t.Node? {
      if t.b < |v| && v[t.b] { SearchedRoot(t.right, w, t.b, v); } else { SearchedRoot(t.left, w, t.b, v); }
    }
  }

  lemma {:induction false} RouteIsSearched(t: Tree, w: nat, lo: int, r: Route)
    requires Wf(t, w, lo) && r in Routes(t) && |r.key| == w
    ensures Search(t, r.key).key == r.key && r in Routes(Search(t, r.key))
  {
    if t.Node? {
      RouteOnPath(t, w, lo, r);
      RouteIsSearched(if r.key[t.b] then t.right else t.left, w, t.b, r);
    } else {
      var i :| 0 <= i < |t.chain| && t.chain[i].route == r;
      assert EntryOk(t.chain[i], t.key, lo);
    }
  }
}
