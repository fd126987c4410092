/** Traversals of lib/hash.c interleaved with removals. */
module HashRuns {
  import opened HashChains
  import opened HashTable

  datatype Op<K> = NextOp | RemoveOp(l: Link<K>)

  /** The links a traversal returns that has p pending; calls at its end return nothing. */
  function Returned<K>(p: Chain<K>, ops: seq<Op<K>>): Chain<K>
    decreases |ops|
  {
    if ops == [] then []
    else
      match ops[0]
      case NextOp => if p == [] then Returned(p, ops[1..]) else [p[0]] + Returned(p[1..], ops[1..])
      case RemoveOp(l) => Returned(Without(p, l), ops[1..])
  }

  /** What is pending afterwards. */
  function After<K>(p: Chain<K>, ops: seq<Op<K>>): Chain<K>
    decreases |ops|
  {
    if ops == [] then p
    else
      match ops[0]
      case NextOp => After(if p == [] then p else p[1..], ops[1..])
      case RemoveOp(l) => After(Without(p, l), ops[1..])
  }

  /** The links removed before their turn. */
  function Dropped<K>(p: Chain<K>, ops: seq<Op<K>>): Chain<K>
    decreases |ops|
  {
    if ops == [] then []
    else
      match ops[0]
      case NextOp => Dropped(if p == [] then p else p[1..], ops[1..])
      case RemoveOp(l) => (if l in p then [l] else []) + Dropped(Without(p, l), ops[1..])
  }

  lemma {:induction false} WithoutCount<K>(p: Chain<K>, x: Link<K>)
    requires Distinct(p)
    ensures Distinct(Without(p, x)) && x !in Without(p, x)
    ensures multiset(p) == multiset(Without(p, x)) + (if x in p then multiset{x} else multiset{})
  {
    hide Without, Distinct;
    if x in p {
      var j :| 0 <= j < |p| && p[j] == x;
      WithoutCut(p, j);
      CutCount(p, j);
    } else {
      WithoutAbsent(p, x);
    }
  }

  lemma CutCount<K>(p: Chain<K>, j: nat)
    requires Distinct(p) && j < |p|
    ensures var cut := p[..j] + p[j + 1..]; Distinct(cut) && p[j] !in cut && multiset(p) == multiset(cut) + multiset{p[j]}
    ensures multiset(p)[p[j]] == 1
  {
    var cut := p[..j] + p[j + 1..];
    assert p[j] !in cut;
    hide Distinct;
    assert p == p[..j] + [p[j]] + p[j + 1..];
    assert multiset(p) == multiset(cut) + multiset{p[j]};
    assert multiset(cut)[p[j]] == 0;
  }

  /** Every link that was pending is returned, dropped or still pending, and that exactly once. */
  lemma {:induction false} ExactlyOnce<K>(p: Chain<K>, ops: seq<Op<K>>)
    requires Distinct(p)
    ensures multiset(p) == multiset(Returned(p, ops)) + multiset(Dropped(p, ops)) + multiset(After(p, ops))
    decreases |ops|
  {
    if ops != [] {
      match ops[0]
      case NextOp =>
        if p != [] {
          assert p == [p[0]] + p[1..];
          ExactlyOnce(p[1..], ops[1..]);
        } else {
          ExactlyOnce(p, ops[1..]);
        }
      case RemoveOp(l) =>
        WithoutCount(p, l);
        ExactlyOnce(Without(p, l), ops[1..]);
    }
  }

  /** Only links that a removal names are dropped. */
  lemma {:induction false} DroppedWereRemoved<K>(p: Chain<K>, ops: seq<Op<K>>, x: Link<K>)
    requires x in Dropped(p, ops)
    ensures RemoveOp(x) in ops
    decreases |ops|
  {
    match ops[0]
    case NextOp => DroppedWereRemoved(if p == [] then p else p[1..], ops[1..], x);
    case RemoveOp(l) => if x != l { DroppedWereRemoved(Without(p, l), ops[1..], x); }
  }

  /** A removed link is never returned later. */
  lemma {:induction false} NeverReturned<K>(p: Chain<K>, ops: seq<Op<K>>, k: nat)
    requires Distinct(p) && k < |ops| && ops[k].RemoveOp?
    ensures ops[k].l !in Returned(After(p, ops[..k + 1]), ops[k + 1..])
    decreases |ops|
  {
    var x := ops[k].l;
    var first := ops[..k + 1];
    assert first[1..] == ops[1..][..k];
    if k == 0 {
      WithoutCount(p, x);
      assert first[1..] == [] && After(p, first) == Without(p, x);
      Absent(Without(p, x), ops[1..], x);
    } else {
      assert ops[1..][k..] == ops[k + 1..];
      var p' := match ops[0] { case NextOp => if p == [] then p else p[1..] case RemoveOp(l) => Without(p, l) };
      if ops[0].RemoveOp? { WithoutCount(p, ops[0].l); }
      NeverReturned(p', ops[1..], k - 1);
    }
  }

  lemma {:induction false} Absent<K>(p: Chain<K>, ops: seq<Op<K>>, x: Link<K>)
    requires x !in p
    ensures x !in Returned(p, ops)
    decreases |ops|
  {
    if ops != [] {
      match ops[0]
      case NextOp => Absent(if p == [] then p else p[1..], ops[1..], x);
      case RemoveOp(l) =>
        WithoutSubset(p, l, x);
        Absent(Without(p, l), ops[1..], x);
    }
  }

  lemma WithoutSubset<K>(p: Chain<K>, l: Link<K>, x: Link<K>)
    requires x !in p
    ensures x !in Without(p, l)
  {}

  /** At the end of a traversal, every link that nobody removed has been returned. */
  lemma CompleteTraversal<K>(p: Chain<K>, ops: seq<Op<K>>, x: Link<K>)
    requires Distinct(p) && After(p, ops) == [] && x in p && RemoveOp(x) !in ops
    ensures multiset(Returned(p, ops))[x] == 1
  {
    ExactlyOnce(p, ops);
    if x in Dropped(p, ops) { DroppedWereRemoved(p, ops, x); }
    assert x in multiset(p) && multiset(p)[x] == multiset(Returned(p, ops))[x] + multiset(Dropped(p, ops))[x];
    DistinctOnce(p, x);
  }

  lemma {:induction false} DistinctOnce<K>(p: Chain<K>, x: Link<K>)
    requires Distinct(p) && x in p
    ensures multiset(p)[x] == 1
  {
    var j :| 0 <= j < |p| && p[j] == x;
    CutCount(p, j);
  }

  /** The removals are of links that are in the table at the time. */
  ghost predicate CanRun<K>(contents: Chain<K>, ops: seq<Op<K>>)
    decreases |ops|
  {
    ops == [] ||
    match ops[0]
    case NextOp => CanRun(contents, ops[1..])
    case RemoveOp(l) => l in contents && CanRun(Without(contents, l), ops[1..])
  }

  lemma RunStep<K>(p: Chain<K>, contents: Chain<K>, ops: seq<Op<K>>, i: nat)
    requires i < |ops|
    ensures var rest := ops[i + 1..];
            var p' := match ops[i] { case NextOp => if p == [] then p else p[1..] case RemoveOp(l) => Without(p, l) };
            && Returned(p, ops[i..]) == (if ops[i].NextOp? && p != [] then [p[0]] else []) + Returned(p', rest)
            && After(p, ops[i..]) == After(p', rest)
            && (CanRun(contents, ops[i..]) ==>
                if ops[i].NextOp? then CanRun(contents, rest)
                else ops[i].l in contents && CanRun(Without(contents, ops[i].l), rest))
  {
    assert ops[i..][1..] == ops[i + 1..] && ops[i..][0] == ops[i];
  }

  /** One step; a removal returns nothing. */
  method Perform<K(!new)>(t: Table<K>, op: Op<K>) returns (r: Link?<K>)
    requires t.Valid() && (op.RemoveOp? ==> op.l in t.Contents())
    modifies t, t.buckets, t.links
    ensures t.Valid() && t.links <= old(t.links)
    ensures op.NextOp? ==>
              && t.Contents() == old(t.Contents())
              && r == Nth(old(t.Pending()), 0)
              && t.Pending() == if old(t.Pending()) == [] then [] else old(t.Pending())[1..]
    ensures op.RemoveOp? ==> r == null && t.Contents() == Without(old(t.Contents()), op.l) && t.Pending() == Without(old(t.Pending()), op.l)
  {
    hide Without, Table.Shape, Flat, Rest;
    match op
    case NextOp =>
      r := t.Next();
    case RemoveOp(l) =>
      t.RemoveLink(l);
      r := null;
  }

  /** A traversal of the whole table, interleaved with removals. */
  method Traverse<K(!new)>(t: Table<K>, ops: seq<Op<K>>) returns (out: Chain<K>)
    requires t.Valid() && t.next == null && CanRun(t.Contents(), ops)
    modifies t, t.buckets, t.links
    ensures t.Valid()
    ensures out == Returned(old(t.Contents()), ops) && t.Pending() == After(old(t.Contents()), ops)
  {
    hide Returned, After, CanRun, Without, Table.Shape, Table.Valid, Table.Pending, Table.Contents;
    ghost var contents := t.Contents();
    ghost var mine := t.links;
    t.First();
    out := [];
    var i := 0;
    assert ops[0..] == ops;
    while i < |ops|
      invariant i <= |ops| && t.Valid() && t.links <= mine
      invariant Returned(contents, ops) == out + Returned(t.Pending(), ops[i..])
      invariant After(contents, ops) == After(t.Pending(), ops[i..])
      invariant CanRun(t.Contents(), ops[i..])
      decreases |ops| - i
    {
      RunStep(t.Pending(), t.Contents(), ops, i);
      var l := Perform(t, ops[i]);
      if l != null { out := out + [l]; }
      i := i + 1;
    }
    RunEnd(t.Pending(), ops);
  }

  lemma RunEnd<K>(p: Chain<K>, ops: seq<Op<K>>)
    ensures Returned(p, ops[|ops|..]) == [] && After(p, ops[|ops|..]) == p
  {}
}
