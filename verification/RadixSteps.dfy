/**
 The additions and deletions of lib/radix.c taken apart into the steps the code makes one after the
 other: a change at one leaf or at one link, and a change to the annotations of one ancestor.
 */
module RadixSteps {
  import opened Options
  import opened RadixTree
  import opened RadixAdd
  import opened RadixDelete

  predicate GoesRight(b: nat, v: Key) {
    b < |v| && v[b]
  }

  /** Enter the route into the annotations on its path. */
  function Lift(t: Tree, lo: int, r: Route): Tree {
    match t
    case Leaf(_, _, _) => t
    case Node(b, mk, left, right) =>
      if GoesRight(b, r.key)
      then Node(b, MkAdd(mk, r, lo, b), left, Lift(right, b, r))
      else Node(b, MkAdd(mk, r, lo, b), Lift(left, b, r), right)
  }

  /** Take the route out of the annotations on its path. */
  function Unlift(t: Tree, lo: int, r: Route): Tree {
    match t
    case Leaf(_, _, _) => t
    case Node(b, mk, left, right) =>
      if GoesRight(b, r.key)
      then Node(b, MkDrop(mk, r, lo, b), left, Unlift(right, b, r))
      else Node(b, MkDrop(mk, r, lo, b), Unlift(left, b, r), right)
  }

  /** Give the leaf that a search for v reaches another chain. */
  function SetChain(t: Tree, v: Key, c: seq<Entry>): Tree {
    match t
    case Leaf(key, root, _) => Leaf(key, root, c)
    case Node(b, mk, left, right) =>
      if GoesRight(b, v) then Node(b, mk, left, SetChain(right, v, c)) else Node(b, mk, SetChain(left, v, c), right)
  }

  /** The index of the parent of the leaf that a search for v reaches. */
  function ParentIndex(t: Tree, lo: int, v: Key): int {
    match t
    case Leaf(_, _, _) => lo
    case Node(b, _, left, right) => ParentIndex(if GoesRight(b, v) then right else left, b, v)
  }

  /** squid_rn_insert and the promotion: a new internal node with index d over the leaf and what was there. */
  function Pair(t: Tree, r: Route, d: nat): Tree
    requires d < |r.key|
  {
    if t.Node? && t.b < d then
      if GoesRight(t.b, r.key) then Node(t.b, t.mk, t.left, Pair(t.right, r, d)) else Node(t.b, t.mk, Pair(t.left, r, d), t.right)
    else
      var leaf := Leaf(r.key, false, [Entry(r, IsLifted(r, d))]);
      var (mk, x) := Promote(t, d);
      if r.key[d] then Node(d, mk, x, leaf) else Node(d, mk, leaf, x)
  }

  /** The leaf of v goes and its sibling takes the parent's place and annotations. */
  function Splice(t: Tree, v: Key): Tree
    requires t.Node?
  {
    if GoesRight(t.b, v) then
      if t.right.Leaf? then Demote(t.left, t.mk) else Node(t.b, t.mk, t.left, Splice(t.right, v))
    else
      if t.left.Leaf? then Demote(t.right, t.mk) else Node(t.b, t.mk, Splice(t.left, v), t.right)
  }

  lemma {:induction false} AddDupSteps(t: Tree, lo: int, r: Route)
    ensures var leaf := Search(t, r.key);
            var c := ChainAdd(leaf.chain, Entry(r, IsLifted(r, ParentIndex(t, lo, r.key))));
            AddDup(t, lo, r) ==
              if (leaf.root && r.mask.Host?) || c.None? then None else Some(Lift(SetChain(t, r.key, c.value), lo, r))
    decreases t
  {
    if t.Node? { AddDupSteps(if GoesRight(t.b, r.key) then t.right else t.left, t.b, r); }
  }

  lemma {:induction false} NewPairSteps(t: Tree, lo: int, r: Route, d: nat)
    requires d < |r.key|
    ensures NewPair(t, lo, r, d) == Lift(Pair(t, r, d), lo, r)
    decreases t
  {
    if t.Node? && t.b < d { NewPairSteps(if GoesRight(t.b, r.key) then t.right else t.left, t.b, r, d); }
  }

  lemma {:induction false} DropDupSteps(t: Tree, lo: int, r: Route)
    ensures DropDup(t, lo, r) == SetChain(Unlift(t, lo, r), r.key, ChainRemove(Search(t, r.key).chain, r))
    decreases t
  {
    if t.Node? { DropDupSteps(if GoesRight(t.b, r.key) then t.right else t.left, t.b, r); }
  }

  lemma {:induction false} DropLeafSteps(t: Tree, lo: int, r: Route)
    requires t.Node?
    ensures DropLeaf(t, lo, r) == Splice(Unlift(t, lo, r), r.key)
    decreases t
  {
    var child := if GoesRight(t.b, r.key) then t.right else t.left;
    if child.Node? { DropLeafSteps(child, t.b, r); }
  }
}
