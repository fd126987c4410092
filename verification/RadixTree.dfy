/**
 The path-compressed bit trie of lib/radix.c for contiguous masks and keys of one length.
 Bits are numbered from the first bit the tree tests (rn_off of the top node), so the default
 route has index 0 and a host route has no mask at all.
 */
module RadixTree {

  type Key = seq<bool>

  /** rn_mask: none for a host route, otherwise the number of leading one bits. */
  datatype Mask = Host | Net(len: nat)

  datatype Route = Route(key: Key, mask: Mask)

  /** A leaf of a duplicate-key chain; lifted says that rn_mklist points to an annotation of some ancestor. */
  datatype Entry = Entry(route: Route, lifted: bool)

  /**
   A leaf stands for a whole rn_dupedkey chain; root marks the two sentinel leaves, whose own
   (maskless) node heads their chain and is not a route.  mk is rn_mklist of an internal node.
   */
  datatype Tree =
    | Leaf(key: Key, root: bool, chain: seq<Entry>)
    | Node(b: nat, mk: seq<Route>, left: Tree, right: Tree)

  /** What squid_rn_match can return. */
  datatype Found = Miss | Sentinel | Hit(route: Route)

  // ---------------------------------------------------------------- routes

  /** The bit-wise and of key and mask is the key. */
  predicate RouteOk(r: Route, w: nat) {
    |r.key| == w && (r.mask.Net? ==> r.mask.len <= w && forall j :: r.mask.len <= j < w ==> !r.key[j])
  }

  predicate Matches(r: Route, v: Key) {
    && |r.key| == |v|
    && match r.mask
       case Host => r.key == v
       case Net(len) => len <= |v| && forall j :: 0 <= j < len ==> r.key[j] == v[j]
  }

  /** Specificity: longer masks first, and a host route before every net. */
  function Rank(r: Route, w: nat): nat {
    match r.mask
    case Host => w + 1
    case Net(len) => len
  }

  ghost function Routes(t: Tree): set<Route> {
    match t
    case Leaf(_, _, chain) => set i | 0 <= i < |chain| :: chain[i].route
    case Node(_, _, l, r) => Routes(l) + Routes(r)
  }

  // ---------------------------------------------------------------- shape

  function Leftmost(t: Tree): (leaf: Tree)
    ensures leaf.Leaf?
  {
    if t.Leaf? then t else Leftmost(t.left)
  }

  /** squid_rn_search */
  function Search(t: Tree, v: Key): (leaf: Tree)
    ensures leaf.Leaf?
  {
    match t
    case Leaf(_, _, _) => t
    case Node(b, _, l, r) => if b < |v| && v[b] then Search(r, v) else Search(l, v)
  }

  /** All keys below t agree with k on the first n bits. */
  ghost predicate Agree(t: Tree, k: Key, n: nat) {
    match t
    case Leaf(key, _, _) => n <= |key| && n <= |k| && forall j :: 0 <= j < n ==> key[j] == k[j]
    case Node(_, _, l, r) => Agree(l, k, n) && Agree(r, k, n)
  }

  /** All keys below t have bit n equal to x. */
  ghost predicate BitIs(t: Tree, n: nat, x: bool) {
    match t
    case Leaf(key, _, _) => n < |key| && key[n] == x
    case Node(_, _, l, r) => BitIs(l, n, x) && BitIs(r, n, x)
  }

  predicate AllBits(k: Key, x: bool) {
    forall j :: 0 <= j < |k| ==> k[j] == x
  }

  /** Most specific first. */
  ghost predicate ChainSorted(chain: seq<Entry>, w: nat) {
    forall i, j :: 0 <= i < j < |chain| ==> Rank(chain[i].route, w) > Rank(chain[j].route, w)
  }

  /** Routes of a chain whose index lies above lo and not above hi, in chain order. */
  function Liftable(chain: seq<Entry>, lo: int, hi: int): seq<Route> {
    if chain == [] then [] else
    var r := chain[0].route;
    (if r.mask.Net? && lo < r.mask.len <= hi then [r] else []) + Liftable(chain[1..], lo, hi)
  }

  ghost predicate EntryOk(e: Entry, key: Key, lo: int) {
    && RouteOk(e.route, |key|) && e.route.key == key
    && (e.lifted <==> e.route.mask.Net? && e.route.mask.len <= lo)
  }

  ghost predicate LeafOk(t: Tree, w: nat, lo: int)
    requires t.Leaf?
  {
    && |t.key| == w
    && (t.root <==> AllBits(t.key, false) || AllBits(t.key, true))
    && ChainSorted(t.chain, w)
    && (forall i :: 0 <= i < |t.chain| ==> EntryOk(t.chain[i], t.key, lo))
    && (t.root || t.chain != [])
    && (t.root ==> forall i :: 0 <= i < |t.chain| ==> t.chain[i].route.mask.Net?)
  }

  /**
   The trie invariants below a parent with index lo (-1 for the top node): indices grow downward,
   descendants agree before the index and split on it, and the annotations of a node are exactly the
   routes of its subtree that apply to all of it and could not be lifted further.
   */
  ghost predicate Wf(t: Tree, w: nat, lo: int)
    decreases t
  {
    match t
    case Leaf(_, _, _) => LeafOk(t, w, lo)
    case Node(b, mk, l, r) =>
      && lo < b < w
      && Wf(l, w, b) && Wf(r, w, b)
      && Agree(l, Leftmost(l).key, b) && Agree(r, Leftmost(l).key, b)
      && BitIs(l, b, false) && BitIs(r, b, true)
      && mk == Liftable(Leftmost(l).chain, lo, b)
  }

  // ---------------------------------------------------------------- squid_rn_match

  /** The first bit at which two keys differ, or their length. */
  function FirstDiff(a: Key, v: Key): (d: nat)
    requires |a| == |v|
    ensures d <= |v|
    ensures forall j :: 0 <= j < d ==> a[j] == v[j]
    ensures d < |v| ==> a[d] != v[d]
    ensures d == |v| <==> a == v
  {
    if a == [] then 0
    else if a[0] != v[0] then 0
    else
      assert a == [a[0]] + a[1..] && v == [v[0]] + v[1..];
      1 + FirstDiff(a[1..], v[1..])
  }

  /** Number of bits the exact comparison looks at: whole bytes up to the end of the mask. */
  function CompareLimit(m: Mask, w: nat): nat {
    match m
    case Host => w
    case Net(len) => (len + 7) / 8 * 8
  }

  /** rn_satsifies_leaf: the key satisfies the route bit by bit under its mask. */
  predicate SatisfiesLeaf(v: Key, r: Route) {
    r.mask.Net? ==> r.mask.len <= |v| && r.mask.len <= |r.key| && forall j :: 0 <= j < r.mask.len ==> v[j] == r.key[j]
  }

  /** The loop over a duplicate-key chain after the first difference d is known; index 0 is not a normal mask. */
  function ChainMatch(chain: seq<Entry>, v: Key, d: nat): Found {
    if chain == [] then Miss
    else
      var r := chain[0].route;
      if r.mask.Net? && (if r.mask.len > 0 then r.mask.len <= d else SatisfiesLeaf(v, r)) then Hit(r)
      else ChainMatch(chain[1..], v, d)
  }

  /** Everything squid_rn_match does at the leaf it reaches. */
  function MatchLeaf(leaf: Tree, v: Key): Found
    requires leaf.Leaf? && |leaf.key| == |v| && (leaf.root || leaf.chain != [])
  {
    var d := FirstDiff(leaf.key, v);
    var head := if leaf.root then Host else leaf.chain[0].route.mask;
    if CompareLimit(head, |v|) <= d then
      if leaf.chain == [] then Sentinel else Hit(leaf.chain[0].route)
    else
      ChainMatch(if leaf.root || leaf.chain[0].route.mask.Net? then leaf.chain else leaf.chain[1..], v, d)
  }

  /** The entry of a chain with a given mask: while (x && x->rn_mask != m->rm_mask) x = x->rn_dupedkey. */
  function FindMask(chain: seq<Entry>, m: Mask): Found {
    if chain == [] then Miss
    else if chain[0].route.mask == m then Hit(chain[0].route)
    else FindMask(chain[1..], m)
  }

  /** squid_rn_search_m under the all-zero mask of the default route: always left. */
  function SearchDefault(t: Tree): Tree {
    Leftmost(t)
  }

  /** The loop over the annotations of one ancestor t. */
  function MkMatch(t: Tree, mk: seq<Route>, v: Key, d: nat): Found {
    if mk == [] then Miss
    else
      var m := mk[0];
      if m.mask.Net? && m.mask.len > 0 then
        if m.mask.len <= d then Hit(m) else MkMatch(t, mk[1..], v, d)
      else
        var x := FindMask(SearchDefault(t).chain, m.mask);
        if x.Hit? && SatisfiesLeaf(v, x.route) then x else MkMatch(t, mk[1..], v, d)
  }

  /** The walk back up from the leaf of the search through the ancestors within t. */
  function MatchUp(t: Tree, v: Key): Found
    requires |Search(t, v).key| == |v| && (Search(t, v).root || Search(t, v).chain != [])
  {
    match t
    case Leaf(_, _, _) => MatchLeaf(t, v)
    case Node(b, mk, l, r) =>
      var below := MatchUp(if b < |v| && v[b] then r else l, v);
      if below != Miss then below
      else MkMatch(t, mk, v, FirstDiff(Search(t, v).key, v))
  }
}
