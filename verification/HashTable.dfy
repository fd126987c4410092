/** lib/hash.c: a chained hash table whose cursor survives removals. */
module HashTable {
  import opened HashChains

  class Table<K(!new)> {
    const size: nat
    const hash: (K, nat) -> nat
    const cmp: (K, K) -> int
    const buckets: array<Link?<K>>
    var next: Link?<K>
    var currentSlot: nat
    var count: int
    ghost var chains: seq<Chain<K>>
    ghost var links: set<Link<K>>
    ghost var pos: nat

    /** Bucket i starts a null-terminated list of the links of chain i. */
    ghost predicate Linked(i: nat)
      requires i < buckets.Length && i < |chains|
      reads this`chains, this`links, buckets, links
    {
      && buckets[i] == Nth(chains[i], 0)
      && forall j :: 0 <= j < |chains[i]| ==> chains[i][j] in links && chains[i][j].next == Nth(chains[i], j + 1)
    }

    ghost predicate Sound(i: nat)
      requires i < |chains|
      reads this`chains
    {
      Distinct(chains[i]) && forall l <- chains[i] :: hash(l.key, size) == i
    }

    /** The table without its cursor. */
    ghost predicate Shape()
      reads this`chains, this`links, this`count, buckets, links
    {
      && 0 < size == buckets.Length == |chains|
      && (forall k :: hash(k, size) < size)
      && (forall i :: 0 <= i < size ==> Linked(i) && Sound(i))
      && count == |Flat(chains)|
    }

    ghost predicate Valid()
      reads this, buckets, links
    {
      && Shape()
      && size == |chains|
      && (next != null ==> currentSlot < size && pos < |chains[currentSlot]| && next == chains[currentSlot][pos])
    }

    /** What the traversal still has to return. */
    ghost function Pending(): Chain<K>
      requires Valid()
      reads this, buckets, links
    {
      if next == null then [] else Rest(chains, currentSlot, pos)
    }

    ghost function Contents(): Chain<K>
      reads this`chains
    {
      Flat(chains)
    }

    constructor (cmpFunc: (K, K) -> int, hashSize: nat, hashFunc: (K, nat) -> nat)
      requires forall k, n :: n > 0 ==> hashFunc(k, n) < n
      ensures Valid() && Contents() == [] && Pending() == [] && next == null
      ensures fresh(buckets) && links == {}
      ensures size == (if hashSize == 0 then 7951 else hashSize) && hash == hashFunc && cmp == cmpFunc
    {
      var n := if hashSize == 0 then 7951 else hashSize;
      size, hash, cmp := n, hashFunc, cmpFunc;
      buckets := new Link?<K>[n](_ => null);
      next, currentSlot, count := null, 0, 0;
      chains, links, pos := seq(n, _ => []), {}, 0;
      new;
      FlatNone(chains);
    }

    /** hash_next_bucket: to the first link of a later chain. */
    method NextBucket()
      requires 0 < size == buckets.Length == |chains| && next == null
      requires forall i :: 0 <= i < size ==> buckets[i] == Nth(chains[i], 0)
      requires currentSlot < size
      modifies this`next, this`currentSlot, this`pos
      ensures next != null ==> currentSlot < size && pos == 0 < |chains[currentSlot]| && next == chains[currentSlot][0]
      ensures old(Flat(chains[currentSlot + 1..])) == if next == null then [] else Rest(chains, currentSlot, pos)
    {
      ghost var rest := Flat(chains[currentSlot + 1..]);
      pos := 0;
      while next == null
        invariant pos == 0 && currentSlot < size
        invariant next == null ==> rest == Flat(chains[currentSlot + 1..])
        invariant next != null ==> next == Nth(chains[currentSlot], 0) && rest == Flat(chains[currentSlot..])
        decreases size - currentSlot, next == null
      {
        currentSlot := currentSlot + 1;
        if currentSlot >= size { break; }
        next := buckets[currentSlot];
        assert chains[currentSlot..][1..] == chains[currentSlot + 1..];
      }
      if next != null {
        assert chains[currentSlot..][1..] == chains[currentSlot + 1..];
        assert chains[currentSlot][0..] == chains[currentSlot];
      }
    }

    /** hash_first. */
    method First()
      requires Valid() && next == null
      modifies this`next, this`currentSlot, this`pos
      ensures Valid() && Pending() == Contents()
    {
      hide Shape, Flat, Rest;
      Firsts();
      RestStart(chains);
      currentSlot, pos := 0, 0;
      next := buckets[currentSlot];
      if next == null { NextBucket(); }
    }

    lemma Firsts()
      requires Shape()
      ensures 0 < size == buckets.Length == |chains|
      ensures forall i :: 0 <= i < size ==> buckets[i] == Nth(chains[i], 0)
    {
      forall i | 0 <= i < size ensures buckets[i] == Nth(chains[i], 0) {
        assert Linked(i);
      }
    }

    lemma NextOf(i: nat, j: nat)
      requires Shape() && i < size && j < |chains[i]|
      ensures chains[i][j] in links && chains[i][j].next == Nth(chains[i], j + 1)
      ensures size == buckets.Length == |chains|
    {
      assert Linked(i);
    }

    /** hash_next: the first of what is pending. */
    method Next() returns (this_: Link?<K>)
      requires Valid()
      modifies this`next, this`currentSlot, this`pos
      ensures Valid()
      ensures old(Pending()) == [] ==> this_ == null && Pending() == []
      ensures old(Pending()) != [] ==> this_ == old(Pending())[0] && Pending() == old(Pending())[1..]
    {
      hide Shape, Flat, Rest;
      this_ := next;
      if this_ == null { return; }
      Firsts();
      NextOf(currentSlot, pos);
      RestStep(chains, currentSlot, pos);
      next := this_.next;
      pos := pos + 1;
      if next == null { NextBucket(); }
    }

    /** hash_last. */
    method Last()
      requires Valid()
      modifies this`next, this`currentSlot
      ensures Valid() && Pending() == [] && next == null
    {
      next, currentSlot := null, 0;
    }

    /** Place j holds r, and no link before it in the chain has a key equal to k. */
    ghost predicate FirstAt(c: Chain<K>, k: K, r: Link<K>, j: nat)
      reads c
    {
      j < |c| && c[j] == r && forall i :: 0 <= i < j ==> cmp(k, c[i].key) != 0
    }

    /** hash_lookup: the first link of the bucket with an equal key. */
    method Lookup(k: K) returns (r: Link?<K>)
      requires Valid()
      ensures r != null ==> r in Contents() && cmp(k, r.key) == 0
      ensures r != null ==> exists j :: FirstAt(chains[hash(k, size)], k, r, j)
      ensures r == null ==> forall l <- Contents() :: hash(l.key, size) == hash(k, size) ==> cmp(k, l.key) != 0
    {
      var b := hash(k, size);
      assert Linked(b) && Sound(b);
      var walker := buckets[b];
      ghost var j := 0;
      while walker != null
        invariant j <= |chains[b]| && walker == Nth(chains[b], j)
        invariant forall i :: 0 <= i < j ==> cmp(k, chains[b][i].key) != 0
        decreases |chains[b]| - j
      {
        if cmp(k, walker.key) == 0 {
          FlatHas(chains, b, walker);
          assert FirstAt(chains[b], k, walker, j);
          return walker;
        }
        walker := walker.next;
        j := j + 1;
      }
      forall l <- Contents() | hash(l.key, size) == b ensures cmp(k, l.key) != 0 {
        var i := FlatIn(chains, l);
        assert Sound(i);
      }
      return null;
    }

    /** The chains with the link at place j of chain i unhooked. */
    lemma Unhooked(i: nat, j: nat)
      requires Shape() && i < size && j < |chains[i]|
      ensures OnlyIn(chains, i, chains[i][j]) && Distinct(chains[i])
      ensures Without(chains[i], chains[i][j]) == chains[i][..j] + chains[i][j + 1..]
      ensures |Flat(chains[i := Without(chains[i], chains[i][j])])| == |Flat(chains)| - 1
    {
      assert Sound(i);
      var x := chains[i][j];
      forall k | 0 <= k < |chains| && k != i ensures x !in chains[k] {
        assert Sound(k);
      }
      WithoutCut(chains[i], j);
      hide Without;
      FlatShorter(chains, i, chains[i][..j] + chains[i][j + 1..]);
    }

    /** Take place j out of chain i: *P = hl->next, where P is the bucket or the link before. */
    method Unhook(hl: Link<K>, ghost j: nat, i: nat, prev: Link?<K>)
      requires Shape() && i < size && j < |chains[i]| && hl == chains[i][j]
      requires prev == if j == 0 then null else chains[i][j - 1]
      modifies this`chains, this`links, this`count, buckets, links
      ensures Shape() && chains == old(chains)[i := Without(old(chains[i]), hl)] && links == old(links) - {hl}
      ensures hl.next == old(hl.next)
    {
      Unhooked(i, j);
      OtherChains(i, j);
      ghost var was, nx, heads := chains, Nexts(), buckets[..];
      WasLinked();
      if prev == null {
        buckets[i] := hl.next;
      } else {
        prev.next := hl.next;
      }
      count := count - 1;
      chains := chains[i := Without(chains[i], hl)];
      links := links - {hl};
      hide Without, Flat;
      CutLinked(i, j, hl, prev, was, nx, heads);
      OthersLinked(i, j, hl, prev, was, nx, heads);
      AllSound(i, j, was);
    }

    /** The next fields of all links. */
    ghost function Nexts(): map<Link<K>, Link?<K>>
      reads this`links, links
    {
      map l: Link<K> | l in links :: l.next
    }

    lemma WasLinked()
      requires Shape()
      ensures forall k :: 0 <= k < size ==> LinkedBy(chains[k], Nexts(), buckets[k])
      ensures forall k :: 0 <= k < size ==> SoundChain(chains[k], k)
    {
      forall k | 0 <= k < size ensures LinkedBy(chains[k], Nexts(), buckets[k]) && SoundChain(chains[k], k) {
        assert Linked(k) && Sound(k);
      }
    }

    ghost predicate SoundChain(c: Chain<K>, k: nat) {
      Distinct(c) && forall l <- c :: hash(l.key, size) == k
    }

    /** How memory has changed when hl has been unhooked from chain i. */
    ghost predicate Changed(i: nat, j: nat, hl: Link<K>, prev: Link?<K>, was: seq<Chain<K>>, nx: map<Link<K>, Link?<K>>, heads: seq<Link?<K>>)
      reads this, buckets, nx.Keys
    {
      && size == buckets.Length == |chains| == |was| == |heads| && i < size && j < |was[i]|
      && hl == was[i][j] && hl in nx && prev == (if j == 0 then null else was[i][j - 1])
      && chains == was[i := was[i][..j] + was[i][j + 1..]]
      && links == nx.Keys - {hl}
      && (forall l <- nx.Keys :: l.next == if l == prev then nx[hl] else nx[l])
      && (forall k :: 0 <= k < size && (k != i || prev != null) ==> buckets[k] == heads[k])
      && (prev == null ==> buckets[i] == nx[hl])
    }

    lemma CutLinked(i: nat, j: nat, hl: Link<K>, prev: Link?<K>, was: seq<Chain<K>>, nx: map<Link<K>, Link?<K>>, heads: seq<Link?<K>>)
      requires Changed(i, j, hl, prev, was, nx, heads) && LinkedBy(was[i], nx, heads[i]) && Distinct(was[i])
      ensures Linked(i)
    {
      var c := was[i];
      var cut := c[..j] + c[j + 1..];
      forall m | 0 <= m < |cut| ensures cut[m] in links && cut[m].next == Nth(cut, m + 1) {
        assert cut[m] == c[if m < j then m else m + 1];
      }
    }

    lemma OthersLinked(i: nat, j: nat, hl: Link<K>, prev: Link?<K>, was: seq<Chain<K>>, nx: map<Link<K>, Link?<K>>, heads: seq<Link?<K>>)
      requires Changed(i, j, hl, prev, was, nx, heads) && forall k :: 0 <= k < size ==> LinkedBy(was[k], nx, heads[k])
      requires forall k, m :: 0 <= k < size && k != i && 0 <= m < |was[k]| ==> was[k][m] !in was[i]
      ensures forall k :: 0 <= k < size && k != i ==> Linked(k)
    {
      forall k | 0 <= k < size && k != i ensures Linked(k) {
        assert chains[k] == was[k] && LinkedBy(was[k], nx, heads[k]);
      }
    }

    lemma AllSound(i: nat, j: nat, was: seq<Chain<K>>)
      requires size == |chains| == |was| && i < size && j < |was[i]| && chains == was[i := was[i][..j] + was[i][j + 1..]]
      requires forall k :: 0 <= k < size ==> SoundChain(was[k], k)
      ensures forall k :: 0 <= k < size ==> Sound(k)
    {
      forall k | 0 <= k < size ensures Sound(k) {
        assert SoundChain(was[k], k);
      }
    }

    /** Links of other chains are other links. */
    lemma OtherChains(i: nat, j: nat)
      requires Shape() && i < size && j < |chains[i]|
      ensures forall k, m :: 0 <= k < size && k != i && 0 <= m < |chains[k]| ==> chains[k][m] !in chains[i]
    {
      forall k, m | 0 <= k < size && k != i && 0 <= m < |chains[k]| ensures chains[k][m] !in chains[i] {
        assert Sound(k) && Sound(i);
        assert chains[k][m] in chains[k];
      }
    }

    /** The loop that looks for the pointer to hl: the bucket itself, or the link before. */
    method FindBefore(hl: Link<K>, i: nat, ghost j: nat) returns (prev: Link?<K>)
      requires Shape() && i < size && j < |chains[i]| && hl == chains[i][j] && Distinct(chains[i])
      ensures prev == if j == 0 then null else chains[i][j - 1]
    {
      Firsts();
      var p := buckets[i];
      prev := null;
      ghost var m := 0;
      while p != hl
        invariant m <= j && p == Nth(chains[i], m) && prev == (if m == 0 then null else chains[i][m - 1])
        decreases j - m
      {
        NextOf(i, m);
        prev := p;
        p := p.next;
        m := m + 1;
      }
    }

    /** hash_remove_link, also of the link the cursor is at. */
    method RemoveLink(hl: Link<K>)
      requires Valid() && hl in Contents()
      modifies this, buckets, links
      ensures Valid() && links == old(links) - {hl}
      ensures Contents() == Without(old(Contents()), hl)
      ensures Pending() == Without(old(Pending()), hl)
      ensures hl !in Contents() && count == old(count) - 1
    {
      hide Flat, Rest, Without, Linked, Sound;
      var i := hash(hl.key, size);
      ghost var j := Place(hl);
      Unhooked(i, j);
      var prev := FindBefore(hl, i, j);
      ghost var slot, at := currentSlot, pos;
      NextOf(i, j);
      FlatRemove(chains, i, hl);
      GoneFrom(Flat(chains), hl);
      if next == hl {
        assert slot == i && at == j;
        RestRemoveHere(chains, slot, at);
      } else if next != null {
        RestRemove(chains, i, j, slot, at);
      } else {
        NothingWithout(hl);
      }
      Unhook(hl, j, i, prev);
      if next == hl {
        Firsts();
        next := hl.next;
        if next == null {
          RestEnd(chains, slot);
          NextBucket();
        }
      } else if next != null && i == currentSlot && j < pos {
        pos := pos - 1;
      }
    }

    /** Where a link of the table is. */
    lemma Place(hl: Link<K>) returns (j: nat)
      requires Shape() && hl in Flat(chains)
      ensures var i := hash(hl.key, size); i < size == |chains| == buckets.Length && j < |chains[i]| && chains[i][j] == hl && buckets[i] == Nth(chains[i], 0)
    {
      var i := FlatIn(chains, hl);
      assert Sound(i) && Linked(i);
      j :| 0 <= j < |chains[i]| && chains[i][j] == hl;
    }

    /** hash_join: a link that is not in the table goes to the front of its chain. */
    method Join(lnk: Link<K>)
      requires Valid() && lnk !in links
      modifies this, buckets, lnk
      ensures Valid() && links == old(links) + {lnk}
      ensures lnk in Contents() && Without(Contents(), lnk) == old(Contents())
      ensures var i := hash(lnk.key, size); i < |old(chains)| && chains == old(chains)[i := [lnk] + old(chains)[i]]
      ensures Without(Pending(), lnk) == old(Pending())
      ensures count == old(count) + 1
    {
      hide Flat, Rest, Without, Linked, Sound, Distinct;
      ghost var was := chains;
      var i := hash(lnk.key, size);
      ghost var c := [lnk] + chains[i];
      NotThere(lnk, i);
      Hook(lnk, i);
      if next != null && currentSlot == i { pos := pos + 1; }
      Joined(was, i, lnk, c);
      if next != null {
        RestRemove(chains, i, 0, currentSlot, pos);
      } else {
        NothingWithout(lnk);
      }
    }

    /** The new link becomes the head of chain i. */
    method Hook(lnk: Link<K>, i: nat)
      requires Shape() && lnk !in links && i == hash(lnk.key, size)
      modifies this`chains, this`links, this`count, buckets, lnk
      ensures Shape() && chains == old(chains)[i := [lnk] + old(chains[i])] && links == old(links) + {lnk}
      ensures count == old(count) + 1
    {
      hide Flat;
      ghost var was, nx, heads := chains, Nexts(), buckets[..];
      WasLinked();
      NotThere(lnk, i);
      FlatShorter(chains, i, [lnk] + chains[i]);
      lnk.next := buckets[i];
      buckets[i] := lnk;
      count := count + 1;
      chains := chains[i := [lnk] + chains[i]];
      links := links + {lnk};
      forall k | 0 <= k < size ensures Linked(k) && Sound(k) {
        assert LinkedBy(was[k], nx, heads[k]) && SoundChain(was[k], k);
        Hooked(k, i, lnk, was, nx, heads);
      }
    }

    lemma Hooked(k: nat, i: nat, lnk: Link<K>, was: seq<Chain<K>>, nx: map<Link<K>, Link?<K>>, heads: seq<Link?<K>>)
      requires size == buckets.Length == |chains| == |was| == |heads| && i < size && k < size
      requires LinkedBy(was[k], nx, heads[k]) && SoundChain(was[k], k) && lnk !in was[k] && hash(lnk.key, size) == i
      requires chains == was[i := [lnk] + was[i]] && links == nx.Keys + {lnk} && lnk !in nx
      requires lnk.next == heads[i] && buckets[..] == heads[i := lnk] && forall l <- nx.Keys :: l.next == nx[l]
      ensures Linked(k) && Sound(k)
    {
      var c := chains[k];
      var d := if k == i then 1 else 0;
      forall m | 0 <= m < |c| ensures c[m] in links && c[m].next == Nth(c, m + 1) {
        assert m >= d ==> c[m] == was[k][m - d];
      }
    }

    /** No link is in the table twice. */
    lemma ContentsDistinct()
      requires Valid()
      ensures Distinct(Contents())
    {
      forall k | 0 <= k < size ensures Distinct(chains[k]) { assert Sound(k); }
      forall i, k, m | 0 <= i < k < size && 0 <= m < |chains[k]| ensures chains[k][m] !in chains[i] {
        assert Sound(i) && Sound(k) && chains[k][m] in chains[k];
      }
      FlatDistinct(chains);
    }

    lemma NotThere(lnk: Link<K>, i: nat)
      requires Shape() && lnk !in links && i < size
      ensures size == |chains| == buckets.Length && Distinct(chains[i])
      ensures forall k :: 0 <= k < size ==> lnk !in chains[k]
    {
      forall k | 0 <= k < size ensures lnk !in chains[k] {
        assert Linked(k);
      }
      assert Sound(i);
    }
  }

  lemma {:induction false} FlatDistinct<K>(chains: seq<Chain<K>>)
    requires forall i :: 0 <= i < |chains| ==> Distinct(chains[i])
    requires forall i, k, m :: 0 <= i < k < |chains| && 0 <= m < |chains[k]| ==> chains[k][m] !in chains[i]
    ensures Distinct(Flat(chains))
  {
    if chains != [] {
      FlatDistinct(chains[1..]);
      forall x <- Flat(chains[1..]) ensures x !in chains[0] {
        var k := FlatIn(chains[1..], x);
        var m :| 0 <= m < |chains[1..][k]| && chains[1..][k][m] == x;
        assert chains[k + 1][m] == x;
      }
      var c, f := chains[0], Flat(chains[1..]);
      forall i, j | 0 <= i < j < |c + f| ensures (c + f)[i] != (c + f)[j] {
        assert i < |c| <= j ==> f[j - |c|] in f && c[i] in c;
        assert |c| <= i ==> f[i - |c|] != f[j - |c|];
      }
    }
  }

  /** Taking the new link out again gives the old chains back. */
  lemma Joined<K>(was: seq<Chain<K>>, i: nat, lnk: Link<K>, c: Chain<K>)
    requires i < |was| && c == [lnk] + was[i] && forall k :: 0 <= k < |was| ==> lnk !in was[k]
    requires Distinct(was[i])
    ensures var chains := was[i := c];
            && OnlyIn(chains, i, lnk) && Distinct(chains[i]) && chains[i][0] == lnk
            && chains[i := Without(chains[i], lnk)] == was
            && lnk in Flat(chains) && Without(Flat(chains), lnk) == Flat(was)
  {
    hide Flat, Without;
    var chains := was[i := c];
    assert Distinct(c);
    WithoutCut(c, 0);
    hide Distinct;
    assert c[..0] + c[1..] == was[i];
    FlatRemove(chains, i, lnk);
    FlatHas(chains, i, lnk);
  }

  ghost predicate LinkedBy<K>(c: Chain<K>, nx: map<Link<K>, Link?<K>>, head: Link?<K>) {
    head == Nth(c, 0) && forall m :: 0 <= m < |c| ==> c[m] in nx && nx[c[m]] == Nth(c, m + 1)
  }

  lemma GoneFrom<K>(s: Chain<K>, x: Link<K>)
    ensures x !in Without(s, x)
  {}

  lemma NothingWithout<K>(x: Link<K>)
    ensures Without([], x) == []
  {}

  lemma RestEnd<K>(chains: seq<Chain<K>>, slot: nat)
    requires slot < |chains|
    ensures Rest(chains, slot, |chains[slot]|) == Flat(chains[slot + 1..])
  {
    assert chains[slot][|chains[slot]|..] == [];
  }

  lemma RestStart<K>(chains: seq<Chain<K>>)
    requires chains != []
    ensures Rest(chains, 0, 0) == Flat(chains)
    ensures chains[0] == [] ==> Flat(chains[1..]) == Flat(chains)
  {
    assert chains[0][0..] == chains[0];
  }

  lemma RestStep<K>(chains: seq<Chain<K>>, slot: nat, pos: nat)
    requires slot < |chains| && pos < |chains[slot]|
    ensures Rest(chains, slot, pos) != [] && Rest(chains, slot, pos)[0] == chains[slot][pos]
    ensures Rest(chains, slot, pos)[1..] == Rest(chains, slot, pos + 1)
    ensures Rest(chains, slot, |chains[slot]|) == Flat(chains[slot + 1..])
  {
    RestEnd(chains, slot);
    var c := chains[slot];
    assert c[pos..][1..] == c[pos + 1..];
    assert (c[pos..] + Flat(chains[slot + 1..]))[1..] == c[pos..][1..] + Flat(chains[slot + 1..]);
  }

  lemma FlatHas<K>(chains: seq<Chain<K>>, i: nat, x: Link<K>)
    requires i < |chains| && x in chains[i]
    ensures x in Flat(chains)
  {
    if i > 0 { FlatHas(chains[1..], i - 1, x); }
  }

  lemma FlatIn<K>(chains: seq<Chain<K>>, x: Link<K>) returns (i: nat)
    requires x in Flat(chains)
    ensures i < |chains| && x in chains[i]
  {
    if x in chains[0] {
      i := 0;
    } else {
      var k := FlatIn(chains[1..], x);
      i := k + 1;
    }
  }

  lemma FlatNone<K>(chains: seq<Chain<K>>)
    requires forall i :: 0 <= i < |chains| ==> chains[i] == []
    ensures Flat(chains) == []
  {}

  lemma {:induction false} FlatShorter<K>(chains: seq<Chain<K>>, i: nat, c: Chain<K>)
    requires i < |chains|
    ensures |Flat(chains[i := c])| == |Flat(chains)| - |chains[i]| + |c|
  {
    var after := chains[i := c];
    if i == 0 {
      assert after[1..] == chains[1..];
    } else {
      assert after[1..] == chains[1..][i - 1 := c];
      FlatShorter(chains[1..], i - 1, c);
    }
  }
}
