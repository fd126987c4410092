/** The radix tree as its users see it: a head that routes are added to, deleted from and matched against. */
module RadixRuns {
  import opened Options
  import opened RadixTree
  import opened RadixMatch
  import opened RadixAdd
  import opened RadixDelete

  /** squid_rn_inithead: one internal node over the two sentinel leaves. */
  function InitHead(w: nat): Tree {
    Node(0, [], Leaf(Seq(w, false), true, []), Leaf(Seq(w, true), true, []))
  }

  lemma InitHeadOk(w: nat)
    requires 0 < w
    ensures Head(InitHead(w), w) && Routes(InitHead(w)) == {}
  {
    NotAllBits(Seq(w, false));
    NotAllBits(Seq(w, true));
    assert Wf(InitHead(w).left, w, 0) && Wf(InitHead(w).right, w, 0);
  }

  /**
   squid_rn_match against a linear scan, for every key: it returns the most specific stored route that
   matches, or nothing when none does.  The one exception is a sentinel key that has no route of its own:
   there, and only there, it returns the sentinel leaf.
   */
  lemma MatchIsLongest(t: Tree, w: nat, v: Key)
    requires Head(t, w) && |v| == w
    ensures |Search(t, v).key| == w && (Search(t, v).root || Search(t, v).chain != [])
    ensures var f := MatchUp(t, v);
            && (f.Hit? ==> Longest(Routes(t), v, f.route))
            && (f.Miss? ==> NoneMatches(Routes(t), v))
            && (f.Sentinel? <==> IsSentinel(v) && forall q :: q in Routes(t) ==> q.key != v)
  {
    MatchUpBest(t, w, -1, v);
    var leaf := Search(t, v);
    SearchedRoot(t, w, -1, v);
    NotAllBits(leaf.key);
    NotAllBits(v);
    forall q | q in Routes(t) && q.key == v
      ensures leaf.key == v && leaf.chain != []
    {
      RouteIsSearched(t, w, -1, q);
    }
    SearchedRoutes(t, v);
    if leaf.key == v && leaf.chain != [] {
      var m := SearchedOk(t, w, -1, v);
      LeafRoute(leaf, 0);
      assert EntryOk(leaf.chain[0], leaf.key, m);
    }
  }

  /** With no route for it, the all-ones key gets the sentinel although a shorter prefix matches. */
  lemma SentinelShadowsPrefix()
    ensures var t := AddRoute(InitHead(8), Route([true, false, false, false, false, false, false, false], Net(1)));
            && t.Some? && MatchUp(t.value, Seq(8, true)) == Sentinel
            && Matches(Route([true, false, false, false, false, false, false, false], Net(1)), Seq(8, true))
  {
    hide AddRoute, MatchUp, Wf, Search, InitHead, Head, Routes;
    var r := Route([true, false, false, false, false, false, false, false], Net(1));
    InitHeadOk(8);
    AddRouteOk(InitHead(8), 8, r);
    assert r.key[0] && !r.key[1];
    assert r !in Routes(InitHead(8)) && r.mask.Net?;
    var t := AddRoute(InitHead(8), r).value;
    MatchIsLongest(t, 8, Seq(8, true));
    assert Seq(8, true)[1];
  }

  /** p leads from top downwards along the bits of v. */
  ghost predicate OnPath(p: seq<Tree>, top: Tree, v: Key) {
    && p != [] && p[0] == top
    && (forall i :: 0 <= i < |p| ==> Search(p[i], v) == Search(top, v))
    && (forall i :: 0 <= i < |p| - 1 ==> p[i].Node? && p[i + 1] == if p[i].b < |v| && v[p[i].b] then p[i].right else p[i].left)
    && |Search(top, v).key| == |v| && (Search(top, v).root || Search(top, v).chain != [])
  }

  lemma {:induction false} FoundAbove(p: seq<Tree>, top: Tree, v: Key, i: int)
    requires OnPath(p, top, v) && 0 <= i < |p| && (MatchUp(p[i], v) != Miss || i == 0)
    ensures MatchUp(top, v) == MatchUp(p[i], v)
    decreases i
  {
    if i > 0 {
      assert MatchUp(p[i - 1], v) == MatchUp(p[i], v);
      FoundAbove(p, top, v, i - 1);
    }
  }

  // ---------------------------------------------------------------- whole runs

  /** What a user asks of the tree. */
  datatype Op = Add(route: Route) | Del(key: Key, mask: Mask)

  predicate OpOk(op: Op, w: nat) {
    match op
    case Add(r) => RouteOk(r, w)
    case Del(key, _) => |key| == w
  }

  function Apply(t: Tree, op: Op): Tree
    requires t.Node? && (op.Add? ==> |Search(t, op.route.key).key| == |op.route.key|)
  {
    match op
    case Add(r) => var c := AddRoute(t, r); if c.None? then t else c.value
    case Del(key, m) => var c := Delete(t, key, m); if c.None? then t else c.value.0
  }

  /** The same request on a plain set of routes. */
  ghost function ApplyToSet(s: set<Route>, op: Op, w: nat): set<Route> {
    match op
    case Add(r) => if IsSentinel(r.key) && r.mask.Host? then s else s + {r}
    case Del(key, m) =>
      if m.Net? then s - {Route(key, m)}
      else if IsSentinel(key) then s
      else set q | q in s && (q.key == key ==> exists q' :: q' in s && q'.key == key && Rank(q', w) > Rank(q, w))
  }

  lemma ApplyOk(t: Tree, w: nat, op: Op)
    requires Head(t, w) && OpOk(op, w)
    ensures op.Add? ==> |Search(t, op.route.key).key| == w
    ensures Head(Apply(t, op), w) && Routes(Apply(t, op)) == ApplyToSet(Routes(t), op, w)
  {
    match op
    case Add(r) =>
      AddRouteOk(t, w, r);
    case Del(key, m) =>
      DeleteOk(t, w, key, m);
      var c := Delete(t, key, m);
      if m.Host? && c.Some? { HeadOfKey(t, w, key, c.value.1); }
  }

  /** Among routes of one key, only the most specific has no more specific one. */
  lemma HeadOfKey(t: Tree, w: nat, key: Key, r: Route)
    requires Head(t, w) && |key| == w && !IsSentinel(key) && r in Routes(t) && r.key == key
    requires forall q :: q in Routes(t) && q.key == key ==> Rank(q, w) <= Rank(r, w)
    ensures ApplyToSet(Routes(t), Del(key, Host), w) == Routes(t) - {r}
  {
    forall q | q in Routes(t) && q.key == key && q != r
      ensures Rank(r, w) > Rank(q, w)
    {
      RouteInTree(t, w, -1, q);
      RouteInTree(t, w, -1, r);
    }
  }

  ghost function RunTree(t: Tree, w: nat, ops: seq<Op>): Tree
    requires Head(t, w) && forall i :: 0 <= i < |ops| ==> OpOk(ops[i], w)
    decreases |ops|
  {
    if ops == [] then t else
    ApplyOk(t, w, ops[0]);
    RunTree(Apply(t, ops[0]), w, ops[1..])
  }

  ghost function RunSet(s: set<Route>, w: nat, ops: seq<Op>): set<Route>
    decreases |ops|
  {
    if ops == [] then s else RunSet(ApplyToSet(s, ops[0], w), w, ops[1..])
  }

  lemma {:induction false} RunOk(t: Tree, w: nat, ops: seq<Op>)
    requires Head(t, w) && forall i :: 0 <= i < |ops| ==> OpOk(ops[i], w)
    ensures Head(RunTree(t, w, ops), w) && Routes(RunTree(t, w, ops)) == RunSet(Routes(t), w, ops)
    decreases |ops|
  {
    if ops != [] {
      ApplyOk(t, w, ops[0]);
      RunOk(Apply(t, ops[0]), w, ops[1..]);
    }
  }

  /**
   After any run of additions and deletions on a new head, the fast lookup answers every key as a linear
   longest-prefix scan of the routes then stored would, except for sentinel keys without a route.
   */
  lemma MatchAfterAnyRun(w: nat, ops: seq<Op>, v: Key)
    requires 0 < w && |v| == w && forall i :: 0 <= i < |ops| ==> OpOk(ops[i], w)
    ensures Head(InitHead(w), w)
    ensures var t, s := RunTree(InitHead(w), w, ops), RunSet({}, w, ops);
            && Head(t, w) && Routes(t) == s
            && |Search(t, v).key| == w && (Search(t, v).root || Search(t, v).chain != [])
            && match MatchUp(t, v)
               case Hit(r) => Longest(s, v, r)
               case Miss => NoneMatches(s, v)
               case Sentinel => IsSentinel(v) && forall q :: q in s ==> q.key != v
  {
    InitHeadOk(w);
    RunOk(InitHead(w), w, ops);
    MatchIsLongest(RunTree(InitHead(w), w, ops), w, v);
  }
}
