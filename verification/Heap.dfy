/** lib/heap.c: an array heap whose nodes know their own index. */
module Heap {
  import opened Options
  import opened HeapOrder

  class HeapNode<T> {
    var id: nat
    var key: real
    var data: T

    constructor (k: real, d: T)
      ensures key == k && data == d
    {
      id, key, data := 0, k, d;
    }
  }

  class Heap<T> {
    const genKey: (T, real) -> real
    var nodes: array<HeapNode?<T>>
    var last: nat
    var age: real
    ghost var elems: set<HeapNode<T>>

    /** The first last places hold the elements, each of which has its place as id. */
    ghost predicate Indexed()
      reads this`nodes, this`last, this`elems, nodes, elems
    {
      && last <= nodes.Length && 0 < nodes.Length
      && (forall i :: 0 <= i < last ==> nodes[i] != null && nodes[i] in elems && nodes[i].id == i)
      && (forall n <- elems :: n.id < last && nodes[n.id] == n)
    }

    ghost function Keys(): (ks: seq<real>)
      requires Indexed()
      reads this`nodes, this`last, this`elems, nodes, elems
      ensures |ks| == last && forall i :: 0 <= i < last ==> ks[i] == nodes[i].key
    {
      KeysTo(last)
    }

    ghost function KeysTo(n: nat): (ks: seq<real>)
      requires Indexed() && n <= last
      reads this`nodes, this`last, this`elems, nodes, elems
      ensures |ks| == n && forall i :: 0 <= i < n ==> ks[i] == nodes[i].key
    {
      if n == 0 then [] else KeysTo(n - 1) + [nodes[n - 1].key]
    }

    ghost predicate Valid()
      reads this`nodes, this`last, this`elems, nodes, elems
    {
      Indexed() && Ordered(Keys())
    }

    constructor (initSize: int, gen: (T, real) -> real)
      ensures Valid() && fresh(nodes) && elems == {} && last == 0 && age == 0.0 && genKey == gen
      ensures nodes.Length == if initSize <= 0 then 32 else initSize
    {
      genKey := gen;
      nodes := new HeapNode?<T>[if initSize <= 0 then 32 else initSize](_ => null);
      last, age, elems := 0, 0.0, {};
    }

    /** _heap_swap_element. */
    method SwapElement(x: HeapNode<T>, y: HeapNode<T>)
      requires Indexed() && x in elems && y in elems
      modifies nodes, elems`id
      ensures Indexed() && Keys() == Swap(old(Keys()), old(x.id), old(y.id))
      ensures x.id == old(y.id) && y.id == old(x.id)
      ensures forall n <- elems :: n != x && n != y ==> n.id == old(n.id)
    {
      var xId := x.id;
      x.id := y.id;
      y.id := xId;
      nodes[x.id] := x;
      nodes[y.id] := y;
    }

    /** _heap_ify_up. */
    method IfyUp(elm: HeapNode<T>)
      requires Indexed() && elm in elems && UpHole(Keys(), elm.id)
      modifies nodes, elems`id
      ensures Valid()
    {
      while elm.id > 0
        invariant Indexed() && UpHole(Keys(), elm.id)
        decreases elm.id
      {
        var parentNode := nodes[Parent(elm.id)];
        if parentNode.key <= elm.key { break; }
        UpStep(Keys(), elm.id);
        SwapElement(parentNode, elm);
      }
      UpDone(Keys(), elm.id);
    }

    predicate NodeExists(i: int)
      requires last <= nodes.Length
      reads this, nodes
    {
      0 <= i < last && nodes[i] != null
    }

    /** The child with the smaller key, if there is one. */
    method LesserKid(elm: HeapNode<T>) returns (kid: HeapNode?<T>)
      requires Indexed() && elm in elems
      ensures kid == null ==> forall c :: 0 < c < last ==> Parent(c) != elm.id
      ensures kid != null ==> kid in elems && LeastChild(Keys(), elm.id, kid.id)
    {
      var left, right := 2 * elm.id + 1, 2 * elm.id + 2;
      ChildrenOf(elm.id);
      if !NodeExists(left) {
        kid := null;
      } else if !NodeExists(right) {
        kid := nodes[left];
      } else if nodes[right].key < nodes[left].key {
        kid := nodes[right];
      } else {
        kid := nodes[left];
      }
    }

    /** _heap_ify_down. */
    method IfyDown(elm: HeapNode<T>)
      requires Indexed() && elm in elems && DownHole(Keys(), elm.id)
      modifies nodes, elems`id
      ensures Valid()
    {
      hide DownHole, Ordered, Keys, KeysTo;
      var done := false;
      while !done
        invariant Indexed() && if done then Ordered(Keys()) else DownHole(Keys(), elm.id)
        decreases last - elm.id, !done
      {
        done := SinkOnce(elm);
      }
    }

    /** A round of the loop: stop when elm is in order, else change places with the lesser child. */
    method SinkOnce(elm: HeapNode<T>) returns (done: bool)
      requires Indexed() && elm in elems && DownHole(Keys(), elm.id)
      modifies nodes, elems`id
      ensures Indexed()
      ensures done ==> Ordered(Keys()) && elm.id == old(elm.id)
      ensures !done ==> DownHole(Keys(), elm.id) && elm.id > old(elm.id)
    {
      hide DownHole, Ordered, LeastChild;
      var kid := LesserKid(elm);
      if kid == null {
        Childless(Keys(), elm.id);
        return true;
      }
      LeastAfter(Keys(), elm.id, kid.id);
      if elm.key <= kid.key {
        LeastDone(Keys(), elm.id, kid.id);
        return true;
      }
      DownStep(Keys(), elm.id, kid.id);
      SwapElement(kid, elm);
      done := false;
    }

    /** _heap_grow. */
    method Grow()
      requires Valid() && nodes.Length <= last
      modifies this`nodes
      ensures Valid() && last < nodes.Length && fresh(nodes) && Keys() == old(Keys())
      ensures nodes.Length == if old(nodes.Length) <= 10000 then 2 * old(nodes.Length) else 3 * old(nodes.Length) / 2
    {
      var newSize := if nodes.Length > 10000 then nodes.Length * 3 / 2 else nodes.Length * 2;
      var bigger := new HeapNode?<T>[newSize](_ => null);
      forall i | 0 <= i < nodes.Length { bigger[i] := nodes[i]; }
      ghost var ks := Keys();
      nodes := bigger;
      assert Keys() == ks;
    }

    /** heap_insert. */
    method Insert(dat: T) returns (elm: HeapNode<T>)
      requires Valid()
      modifies this, nodes, elems`id
      ensures Valid() && fresh(elm) && elems == old(elems) + {elm} && age == old(age)
      ensures elm.key == genKey(dat, age) && elm.data == dat
      ensures nodes == old(nodes) || fresh(nodes)
    {
      hide Ordered, UpHole, Indexed, Keys, KeysTo;
      elm := new HeapNode<T>(genKey(dat, age), dat);
      if nodes.Length <= last { Grow(); }
      ghost var ks := Keys();
      Append(elm);
      AppendHole(ks, elm.key);
      IfyUp(elm);
    }

    method Append(elm: HeapNode<T>)
      requires Indexed() && last < nodes.Length && elm !in elems
      modifies this`last, this`elems, nodes, elm`id
      ensures Indexed() && elems == old(elems) + {elm} && elm.id == old(last) && Keys() == old(Keys()) + [elm.key]
    {
      ghost var ks := Keys();
      nodes[last] := elm;
      elm.id := last;
      last := last + 1;
      elems := elems + {elm};
      assert Keys() == ks + [elm.key];
    }

    /** heap_extractlast: the last element goes. */
    method ExtractLast() returns (data: T)
      requires Indexed() && last > 0
      modifies this`last, this`elems
      ensures Indexed() && last == old(last) - 1 && Keys() == old(Keys())[..last]
      ensures elems == old(elems) - {old(nodes[last - 1])} && data == old(nodes[last - 1].data)
    {
      ghost var ks, out := Keys(), nodes[last - 1];
      last := last - 1;
      data := nodes[last].data;
      elems := elems - {out};
      assert Keys() == ks[..last];
    }

    /** Put an element whose key has changed, or which has come from elsewhere, back in order. */
    method Settle(elm: HeapNode<T>, ghost ks: seq<real>)
      requires Indexed() && elm in elems && Ordered(ks) && |ks| == last && Keys() == ks[elm.id := elm.key]
      modifies nodes, elems`id
      ensures Valid()
    {
      hide Ordered, UpHole, DownHole;
      Replace(ks, elm.id, elm.key);
      if elm.key < nodes[Parent(elm.id)].key {
        IfyUp(elm);
        OrderedHole(Keys(), elm.id);
      }
      IfyDown(elm);
    }

    /** heap_delete. */
    method Delete(elm: HeapNode<T>) returns (data: T)
      requires Valid() && elm in elems
      modifies this`last, this`elems, nodes, elems`id
      ensures Valid() && elems == old(elems) - {elm} && data == elm.data && last == old(last) - 1
    {
      hide Ordered, KeysTo;
      data := elm.data;
      var lastNode := nodes[last - 1];
      ghost var ks, e := Keys(), elm.id;
      SwapElement(lastNode, elm);
      var dropped := ExtractLast();
      PrefixOrdered(ks, last);
      if elm == lastNode {
        assert Keys() == ks[..last];
      } else if last > 0 {
        assert Keys() == ks[..last][e := lastNode.key];
        Settle(lastNode, ks[..last]);
      }
    }

    /** heap_extractmin: the data of an element with the least key. */
    method ExtractMin() returns (data: Option<T>, ghost out: HeapNode?<T>)
      requires Valid()
      modifies this`last, this`elems, nodes, elems`id
      ensures Valid()
      ensures old(last) == 0 ==> data == None && out == null && elems == old(elems)
      ensures old(last) > 0 ==> out == old(nodes[0]) && out in old(elems) && data == Some(out.data) && elems == old(elems) - {out} && last == old(last) - 1
      ensures old(last) > 0 ==> forall n <- old(elems) :: out.key <= n.key
    {
      if last <= 0 { return None, null; }
      var root := nodes[0];
      RootIsLeast();
      var d := Delete(root);
      return Some(d), root;
    }

    lemma RootIsLeast()
      requires Valid() && last > 0
      ensures forall n <- elems :: nodes[0].key <= n.key
    {
      forall n <- elems ensures nodes[0].key <= n.key {
        RootLeast(Keys(), n.id);
      }
    }

    /** heap_update. */
    method Update(elm: HeapNode<T>, dat: T) returns (was: T)
      requires Valid() && elm in elems
      modifies nodes, elems`id, elm`key, elm`data
      ensures Valid() && was == old(elm.data) && elm.data == dat && elm.key == genKey(dat, age)
    {
      hide Ordered;
      was := elm.data;
      ghost var ks := Keys();
      elm.key := genKey(dat, age);
      elm.data := dat;
      assert Keys() == ks[elm.id := elm.key];
      Settle(elm, ks);
    }

    /** verify_heap_property: exact. */
    method VerifyHeapProperty() returns (correct: bool)
      requires Indexed()
      ensures correct <==> Ordered(Keys())
    {
      correct := true;
      var i := 0;
      while i < last / 2
        invariant 0 <= i <= last / 2 && correct
        invariant forall c :: 0 < c < last && Parent(c) < i ==> nodes[Parent(c)].key <= nodes[c].key
      {
        ChildrenOf(i);
        if NodeExists(2 * i + 1) && nodes[i].key > nodes[2 * i + 1].key { correct := false; }
        if NodeExists(2 * i + 2) && nodes[i].key > nodes[2 * i + 2].key { correct := false; }
        if !correct {
          assert Parent(2 * i + 1) == i == Parent(2 * i + 2);
          break;
        }
        i := i + 1;
      }
    }

    /** Extracting until the heap is empty gives every element once, by non-decreasing key. */
    method Drain() returns (out: seq<T>, ghost order: seq<HeapNode<T>>)
      requires Valid()
      modifies this`last, this`elems, nodes, elems`id
      ensures Valid() && elems == {}
      ensures |out| == |order| && forall i :: 0 <= i < |out| ==> out[i] == order[i].data
      ensures (set n | n in order) == old(elems) && |order| == |old(elems)|
      ensures forall i, j :: 0 <= i < j < |order| ==> order[i].key <= order[j].key
    {
      hide Valid, Indexed;
      out, order := [], [];
      ghost var all := elems;
      while last > 0
        invariant Valid() && Taken(order, elems, all) && Sorted(order, elems)
        invariant |out| == |order| && forall i :: 0 <= i < |out| ==> out[i] == order[i].data
        decreases last
      {
        ghost var before := elems;
        var d; ghost var n;
        d, n := ExtractMin();
        TakenStep(order, before, all, n);
        out, order := out + [d.value], order + [n];
      }
      Empty();
    }

    lemma Empty()
      requires Valid() && last == 0
      ensures elems == {}
    {
      assert forall n <- elems :: n.id < 0;
    }
  }

  /** What has been taken and what is left make up the whole, without repetition. */
  ghost predicate Taken<T>(order: seq<HeapNode<T>>, elems: set<HeapNode<T>>, all: set<HeapNode<T>>) {
    elems <= all && (set n | n in order) == all - elems && |order| + |elems| == |all|
  }

  /** The keys taken do not decrease, and none left is smaller. */
  ghost predicate Sorted<T>(order: seq<HeapNode<T>>, elems: set<HeapNode<T>>)
    reads order, elems
  {
    && (forall i, n :: 0 <= i < |order| && n in elems ==> order[i].key <= n.key)
    && (forall i, j :: 0 <= i < j < |order| ==> order[i].key <= order[j].key)
  }

  lemma TakenStep<T>(order: seq<HeapNode<T>>, elems: set<HeapNode<T>>, all: set<HeapNode<T>>, n: HeapNode<T>)
    requires Taken(order, elems, all) && Sorted(order, elems) && n in elems && forall m <- elems :: n.key <= m.key
    ensures Taken(order + [n], elems - {n}, all) && Sorted(order + [n], elems - {n})
  {
    var next := order + [n];
    assert next[|order|] == n;
    assert (set m | m in next) == (set m | m in order) + {n};
  }

  lemma AppendHole(ks: seq<real>, v: real)
    requires Ordered(ks)
    ensures UpHole(ks + [v], |ks|)
  {}

  lemma PrefixOrdered(ks: seq<real>, n: nat)
    requires Ordered(ks) && n <= |ks|
    ensures Ordered(ks[..n])
  {}

  lemma ChildrenOf(e: nat)
    ensures forall c :: 0 < c && Parent(c) == e <==> c == 2 * e + 1 || c == 2 * e + 2
  {}

  lemma Childless(ks: seq<real>, e: nat)
    requires DownHole(ks, e) && forall c :: 0 < c < |ks| ==> Parent(c) != e
    ensures Ordered(ks)
  {}

  lemma LeastAfter(ks: seq<real>, e: nat, k: nat)
    requires LeastChild(ks, e, k)
    ensures e < k < |ks|
  {}

  lemma LeastDone(ks: seq<real>, e: nat, k: nat)
    requires DownHole(ks, e) && LeastChild(ks, e, k) && ks[e] <= ks[k]
    ensures Ordered(ks)
  {
    DownDone(ks, e);
  }
}
