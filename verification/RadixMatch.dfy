/** squid_rn_match agrees with a linear longest-prefix scan of the stored routes. */
module RadixMatch {
  import opened RadixTree

  /** r is the most specific of the routes in s that match v: what a linear scan would return. */
  ghost predicate Longest(s: set<Route>, v: Key, r: Route) {
    && r in s && Matches(r, v)
    && forall q :: q in s && Matches(q, v) ==> Rank(q, |v|) <= Rank(r, |v|)
  }

  ghost predicate NoneMatches(s: set<Route>, v: Key) {
    forall q :: q in s ==> !Matches(q, v)
  }

  // ---------------------------------------------------------------- routes and keys below a node

  lemma {:induction false} RouteInTree(t: Tree, w: nat, lo: int, r: Route)
    requires Wf(t, w, lo) && r in Routes(t)
    ensures RouteOk(r, w)
  {
    if t.Node? {
      if r in Routes(t.left) { RouteInTree(t.left, w, t.b, r); } else { RouteInTree(t.right, w, t.b, r); }
    }
  }

  lemma {:induction false} RouteBit(t: Tree, w: nat, lo: int, r: Route, n: nat, x: bool)
    requires Wf(t, w, lo) && r in Routes(t) && BitIs(t, n, x) && n < w
    ensures |r.key| == w && r.key[n] == x
  {
    if t.Node? {
      if r in Routes(t.left) { RouteBit(t.left, w, t.b, r, n, x); } else { RouteBit(t.right, w, t.b, r, n, x); }
    }
  }

  lemma {:induction false} SearchedLeaf(t: Tree, w: nat, lo: int, v: Key)
    requires Wf(t, w, lo)
    ensures |Search(t, v).key| == w
    ensures Search(t, v).root || Search(t, v).chain != []
  {
    if t.Node? {
      if t.b < |v| && v[t.b] { SearchedLeaf(t.right, w, t.b, v); } else { SearchedLeaf(t.left, w, t.b, v); }
    }
  }

  lemma {:induction false} SearchedAgree(t: Tree, v: Key, k: Key, n: nat)
    requires Agree(t, k, n)
    ensures Agree(Search(t, v), k, n)
  {
    if t.Node? {
      if t.b < |v| && v[t.b] { SearchedAgree(t.right, v, k, n); } else { SearchedAgree(t.left, v, k, n); }
    }
  }

  lemma {:induction false} SearchedBitIs(t: Tree, v: Key, n: nat, x: bool)
    requires BitIs(t, n, x)
    ensures BitIs(Search(t, v), n, x)
  {
    if t.Node? {
      if t.b < |v| && v[t.b] { SearchedBitIs(t.right, v, n, x); } else { SearchedBitIs(t.left, v, n, x); }
    }
  }

  /** A route whose index does not exceed that of a node has only zero bits from there on, so it hangs leftmost. */
  lemma {:induction false} ShortRoutesHangLeft(t: Tree, w: nat, lo: int, r: Route)
    requires Wf(t, w, lo) && r in Routes(t) && r.mask.Net? && (t.Node? ==> r.mask.len <= t.b)
    ensures r in Routes(Leftmost(t))
  {
    if t.Node? {
      RouteInTree(t, w, lo, r);
      if r in Routes(t.right) { RouteBit(t.right, w, t.b, r, t.b, true); }
      ShortRoutesHangLeft(t.left, w, t.b, r);
    }
  }

  lemma {:induction false} LeftmostRoutes(t: Tree)
    ensures Routes(Leftmost(t)) <= Routes(t)
  {
    if t.Node? { LeftmostRoutes(t.left); }
  }

  lemma {:induction false} LeftmostWf(t: Tree, w: nat, lo: int) returns (m: int)
    requires Wf(t, w, lo)
    ensures LeafOk(Leftmost(t), w, m) && lo <= m
  {
    if t.Node? { m := LeftmostWf(t.left, w, t.b); } else { m := lo; }
  }

  // ---------------------------------------------------------------- chains and annotations

  lemma {:induction false} LiftableMember(chain: seq<Entry>, lo: int, hi: int, r: Route)
    ensures r in Liftable(chain, lo, hi) <==>
            r.mask.Net? && lo < r.mask.len <= hi && exists i :: 0 <= i < |chain| && chain[i].route == r
  {
    if chain != [] {
      LiftableMember(chain[1..], lo, hi, r);
      assert forall i :: 0 < i < |chain| ==> chain[i] == chain[1..][i - 1];
      if exists i :: 0 <= i < |chain[1..]| && chain[1..][i].route == r {
        var i :| 0 <= i < |chain[1..]| && chain[1..][i].route == r;
        assert chain[i + 1].route == r;
      }
    }
  }

  ghost predicate MkSorted(mk: seq<Route>) {
    && (forall i :: 0 <= i < |mk| ==> mk[i].mask.Net?)
    && forall i, j :: 0 <= i < j < |mk| ==> mk[i].mask.len > mk[j].mask.len
  }

  lemma {:induction false} LiftableSorted(chain: seq<Entry>, w: nat, lo: int, hi: int)
    requires ChainSorted(chain, w)
    ensures MkSorted(Liftable(chain, lo, hi))
  {
    if chain != [] {
      var rest, r := Liftable(chain[1..], lo, hi), chain[0].route;
      assert ChainSorted(chain[1..], w);
      LiftableSorted(chain[1..], w, lo, hi);
      forall i | 0 <= i < |rest|
        ensures r.mask.Net? ==> r.mask.len > rest[i].mask.len
      {
        LiftableMember(chain[1..], lo, hi, rest[i]);
        var j :| 0 <= j < |chain[1..]| && chain[1..][j].route == rest[i];
        assert chain[j + 1].route == rest[i];
      }
    }
  }

  /** The chain loop returns the most specific net of the chain that matches. */
  lemma {:induction false} ChainMatchBest(chain: seq<Entry>, key: Key, v: Key, lo: int)
    requires |key| == |v| && ChainSorted(chain, |v|)
    requires forall i :: 0 <= i < |chain| ==> RouteOk(chain[i].route, |v|) && chain[i].route.key == key && chain[i].route.mask.Net?
    ensures var f := ChainMatch(chain, v, FirstDiff(key, v));
            && !f.Sentinel?
            && (f.Hit? ==> Matches(f.route, v) && exists i :: 0 <= i < |chain| && chain[i].route == f.route)
            && (f.Hit? ==> forall i :: 0 <= i < |chain| && Matches(chain[i].route, v) ==>
                             Rank(chain[i].route, |v|) <= Rank(f.route, |v|))
            && (f.Miss? ==> forall i :: 0 <= i < |chain| ==> !Matches(chain[i].route, v))
  {
    if chain != [] {
      var d, r := FirstDiff(key, v), chain[0].route;
      assert Matches(r, v) <==> r.mask.len <= d;
      if r.mask.len > d {
        var rest := chain[1..];
        ChainMatchBest(rest, key, v, lo);
        assert forall i :: 0 < i < |chain| ==> chain[i] == rest[i - 1];
        var f := ChainMatch(rest, v, d);
        if f.Hit? {
          var i :| 0 <= i < |rest| && rest[i].route == f.route;
          assert chain[i + 1].route == f.route;
        }
      }
    }
  }

  lemma LeafRoute(t: Tree, i: int)
    requires t.Leaf? && 0 <= i < |t.chain|
    ensures t.chain[i].route in Routes(t)
  {}

  /** The exact comparison succeeded: the head of the chain is the answer. */
  lemma ExactMatchBest(t: Tree, w: nat, lo: int, v: Key)
    requires t.Leaf? && LeafOk(t, w, lo) && |v| == w && t.chain != []
    requires CompareLimit(if t.root then Host else t.chain[0].route.mask, w) <= FirstDiff(t.key, v)
    ensures Longest(Routes(t), v, t.chain[0].route)
  {
    var r := t.chain[0].route;
    assert EntryOk(t.chain[0], t.key, lo);
    assert r.mask.Net? ==> r.mask.len <= FirstDiff(t.key, v);
    assert Matches(r, v);
    LeafRoute(t, 0);
    forall q | q in Routes(t)
      ensures Rank(q, w) <= Rank(r, w)
    {
      var i :| 0 <= i < |t.chain| && t.chain[i].route == q;
    }
  }

  /** The exact comparison failed: the chain loop decides, and a host route at the head cannot match. */
  lemma LoopMatchBest(t: Tree, w: nat, lo: int, v: Key, k: int)
    requires t.Leaf? && LeafOk(t, w, lo) && |v| == w && 0 <= k <= |t.chain| && k <= 1
    requires forall i :: k <= i < |t.chain| ==> t.chain[i].route.mask.Net?
    requires k == 1 ==> t.chain[0].route.mask.Host? && t.key != v
    ensures var f := ChainMatch(t.chain[k..], v, FirstDiff(t.key, v));
            && !f.Sentinel?
            && (f.Hit? ==> Longest(Routes(t), v, f.route))
            && (f.Miss? ==> NoneMatches(Routes(t), v))
  {
    var rest := t.chain[k..];
    assert forall i :: 0 <= i < |rest| ==> rest[i] == t.chain[k + i];
    assert ChainSorted(rest, w);
    forall i | 0 <= i < |rest|
      ensures RouteOk(rest[i].route, w) && rest[i].route.key == t.key && rest[i].route.mask.Net?
    {
      assert EntryOk(t.chain[k + i], t.key, lo);
    }
    ChainMatchBest(rest, t.key, v, lo);
    var f := ChainMatch(rest, v, FirstDiff(t.key, v));
    forall q | q in Routes(t) && Matches(q, v)
      ensures exists i :: 0 <= i < |rest| && rest[i].route == q
    {
      var i :| 0 <= i < |t.chain| && t.chain[i].route == q;
      assert EntryOk(t.chain[i], t.key, lo);
      assert rest[i - k].route == q;
    }
    if f.Hit? {
      var i :| 0 <= i < |rest| && rest[i].route == f.route;
      LeafRoute(t, k + i);
    }
  }

  lemma LeafMatchBest(t: Tree, w: nat, lo: int, v: Key)
    requires t.Leaf? && LeafOk(t, w, lo) && |v| == w
    ensures var f := MatchLeaf(t, v);
            && (f.Hit? ==> Longest(Routes(t), v, f.route))
            && (f.Miss? ==> NoneMatches(Routes(t), v))
            && (f.Sentinel? <==> t.root && t.chain == [] && t.key == v)
  {
    var d := FirstDiff(t.key, v);
    var head := if t.root then Host else t.chain[0].route.mask;
    if CompareLimit(head, w) <= d {
      if t.chain != [] { ExactMatchBest(t, w, lo, v); }
    } else {
      HostHeadsChain(t, w, lo);
      var k := if t.root || t.chain[0].route.mask.Net? then 0 else 1;
      assert t.chain[0..] == t.chain;
      LoopMatchBest(t, w, lo, v, k);
    }
  }

  lemma HostHeadsChain(t: Tree, w: nat, lo: int)
    requires t.Leaf? && LeafOk(t, w, lo)
    ensures forall i :: 1 <= i < |t.chain| ==> t.chain[i].route.mask.Net?
  {
    forall i | 1 <= i < |t.chain|
      ensures t.chain[i].route.mask.Net?
    {
      assert EntryOk(t.chain[0], t.key, lo);
      assert Rank(t.chain[0].route, w) > Rank(t.chain[i].route, w);
    }
  }

  lemma {:induction false} FindMaskFinds(chain: seq<Entry>, w: nat, i: int)
    requires ChainSorted(chain, w) && 0 <= i < |chain|
    ensures FindMask(chain, chain[i].route.mask) == Hit(chain[i].route)
  {
    if i > 0 {
      assert Rank(chain[0].route, w) > Rank(chain[i].route, w);
      var rest := chain[1..];
      assert ChainSorted(rest, w) && rest[i - 1] == chain[i];
      FindMaskFinds(rest, w, i - 1);
    }
  }

  /** Whether an annotation of t matches v shows in the first difference d found at the leaf. */
  ghost predicate MkReadable(t: Tree, mk: seq<Route>, v: Key, d: nat) {
    && MkSorted(mk)
    && forall i :: 0 <= i < |mk| ==>
         && (Matches(mk[i], v) <==> mk[i].mask.len <= d)
         && (mk[i].mask.len == 0 ==> FindMask(Leftmost(t).chain, mk[i].mask) == Hit(mk[i]) && SatisfiesLeaf(v, mk[i]))
  }

  /** The loop over one annotation list returns the most specific annotation that matches. */
  lemma {:induction false} MkMatchBest(t: Tree, mk: seq<Route>, v: Key, d: nat)
    requires MkReadable(t, mk, v, d)
    ensures var f := MkMatch(t, mk, v, d);
            && !f.Sentinel?
            && (f.Hit? ==> f.route in mk && Matches(f.route, v) && f.route.mask.Net?)
            && (f.Hit? ==> forall q :: q in mk && Matches(q, v) ==> q.mask.len <= f.route.mask.len)
            && (f.Miss? ==> forall q :: q in mk ==> !Matches(q, v))
  {
    if mk != [] {
      var rest := mk[1..];
      assert forall i :: 0 <= i < |rest| ==> rest[i] == mk[i + 1];
      if mk[0].mask.len > d {
        assert MkReadable(t, rest, v, d);
        MkMatchBest(t, rest, v, d);
        forall q | q in mk
          ensures q == mk[0] || q in rest
        {
          var i :| 0 <= i < |mk| && mk[i] == q;
          if i > 0 { assert rest[i - 1] == q; }
        }
      }
    }
  }

  /** The annotations of a well-formed node can be tested with the first difference at the searched leaf. */
  lemma NodeMkReadable(t: Tree, w: nat, lo: int, v: Key)
    requires t.Node? && Wf(t, w, lo) && |v| == w && |Search(t, v).key| == w
    ensures MkReadable(t, t.mk, v, FirstDiff(Search(t, v).key, v))
  {
    var first, d := Leftmost(t), FirstDiff(Search(t, v).key, v);
    var key := Search(t, v).key;
    SearchedLeaf(t, w, lo, v);
    var m := LeftmostWf(t, w, lo);
    assert Agree(t, first.key, t.b);
    SearchedAgree(t, v, first.key, t.b);
    LiftableSorted(first.chain, w, lo, t.b);
    forall i | 0 <= i < |t.mk|
      ensures Matches(t.mk[i], v) <==> t.mk[i].mask.len <= d
      ensures t.mk[i].mask.len == 0 ==> FindMask(first.chain, t.mk[i].mask) == Hit(t.mk[i]) && SatisfiesLeaf(v, t.mk[i])
    {
      var r := t.mk[i];
      LiftableMember(first.chain, lo, t.b, r);
      var k :| 0 <= k < |first.chain| && first.chain[k].route == r;
      assert EntryOk(first.chain[k], first.key, m);
      FindMaskFinds(first.chain, w, k);
      assert forall j :: 0 <= j < r.mask.len ==> r.key[j] == key[j];
    }
  }

  /** Whatever matches below a node without being found below it is annotated there or above. */
  lemma Uncovered(t: Tree, w: nat, lo: int, v: Key, q: Route)
    requires t.Node? && Wf(t, w, lo) && |v| == w && q in Routes(t) && Matches(q, v)
    requires q.mask.Net? && lo < q.mask.len <= t.b
    ensures q in t.mk
  {
    ShortRoutesHangLeft(t, w, lo, q);
    var first := Leftmost(t);
    var k :| 0 <= k < |first.chain| && first.chain[k].route == q;
    LiftableMember(first.chain, lo, t.b, q);
  }

  /** A route on the side of t that v does not take can match only if its index is at most t.b, and then v goes right. */
  lemma OtherSide(t: Tree, w: nat, lo: int, v: Key, q: Route)
    requires t.Node? && Wf(t, w, lo) && |v| == w && Matches(q, v)
    requires q in Routes(if v[t.b] then t.left else t.right)
    ensures q.mask.Net? && q.mask.len <= t.b && v[t.b]
  {
    if v[t.b] {
      RouteBit(t.left, w, t.b, q, t.b, false);
    } else {
      RouteBit(t.right, w, t.b, q, t.b, true);
      RouteInTree(t.right, w, t.b, q);
    }
  }

  /** The search of squid_rn_match within a subtree, for every key. */
  lemma {:induction false} MatchUpBest(t: Tree, w: nat, lo: int, v: Key)
    requires Wf(t, w, lo) && |v| == w
    ensures |Search(t, v).key| == w && (Search(t, v).root || Search(t, v).chain != [])
    ensures var f := MatchUp(t, v);
            && (f.Hit? ==> Longest(Routes(t), v, f.route))
            && (f.Miss? ==> forall q :: q in Routes(t) && Matches(q, v) ==> q.mask.Net? && q.mask.len <= lo)
            && (f.Sentinel? <==> Search(t, v).root && Search(t, v).chain == [] && Search(t, v).key == v)
  {
    SearchedLeaf(t, w, lo, v);
    if t.Leaf? {
      LeafMatchBest(t, w, lo, v);
    } else {
      var c := if v[t.b] then t.right else t.left;
      MatchUpBest(c, w, t.b, v);
      var below := MatchUp(c, v);
      if below.Hit? {
        BelowIsBest(t, w, lo, v, below.route);
      } else if below.Miss? {
        NodeMkReadable(t, w, lo, v);
        MkMatchBest(t, t.mk, v, FirstDiff(Search(t, v).key, v));
        MkIsBest(t, w, lo, v);
      }
    }
  }

  lemma BelowIsBest(t: Tree, w: nat, lo: int, v: Key, r: Route)
    requires t.Node? && Wf(t, w, lo) && |v| == w
    requires Longest(Routes(if v[t.b] then t.right else t.left), v, r)
    ensures Longest(Routes(t), v, r)
  {
    forall q | q in Routes(t) && Matches(q, v)
      ensures Rank(q, w) <= Rank(r, w)
    {
      if q in Routes(if v[t.b] then t.left else t.right) {
        OtherSide(t, w, lo, v, q);
        RouteBit(t.right, w, t.b, r, t.b, true);
        RouteInTree(t.right, w, t.b, r);
      }
    }
  }

  lemma MkIsBest(t: Tree, w: nat, lo: int, v: Key)
    requires t.Node? && Wf(t, w, lo) && |v| == w && |Search(t, v).key| == w
    requires forall q :: q in Routes(if v[t.b] then t.right else t.left) && Matches(q, v) ==> q.mask.Net? && q.mask.len <= t.b
    requires MkReadable(t, t.mk, v, FirstDiff(Search(t, v).key, v))
    ensures var f := MkMatch(t, t.mk, v, FirstDiff(Search(t, v).key, v));
            && !f.Sentinel?
            && (f.Hit? ==> Longest(Routes(t), v, f.route))
            && (f.Miss? ==> forall q :: q in Routes(t) && Matches(q, v) ==> q.mask.Net? && q.mask.len <= lo)
  {
    var f := MkMatch(t, t.mk, v, FirstDiff(Search(t, v).key, v));
    MkMatchBest(t, t.mk, v, FirstDiff(Search(t, v).key, v));
    if f.Hit? {
      LiftableMember(Leftmost(t).chain, lo, t.b, f.route);
      LeftmostRoutes(t);
      assert f.route in Routes(Leftmost(t));
    }
    forall q | q in Routes(t) && Matches(q, v)
      ensures q.mask.Net? && q.mask.len <= t.b
      ensures lo < q.mask.len ==> q in t.mk
    {
      if q in Routes(if v[t.b] then t.left else t.right) { OtherSide(t, w, lo, v, q); }
      if lo < q.mask.len { Uncovered(t, w, lo, v, q); }
    }
  }
}
