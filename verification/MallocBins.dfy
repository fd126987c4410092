/**
 The bins of lib/dlmalloc.c: 128 circular doubly-linked lists threaded through the fd and
 bk words of the free chunks, with the bin headers as list heads.  Bin 1 is last_remainder.
 */
module MallocBins {
  import opened MallocSizes

  /** The chunks of each bin from first (fd side) to last (bk side), and the bin of each chunk. */
  datatype Bins = Bins(lists: seq<seq<int>>, slot: map<int, int>)

  const LAST_REMAINDER := 1

  /** bin_at: headers live at addresses no chunk can have. */
  function Header(i: int): int {
    -1 - i
  }

  // ---------------------------------------------------------------- one ring

  function At(h: int, s: seq<int>, k: int): int {
    if 0 <= k < |s| then s[k] else h
  }

  ghost predicate LinkAt(fd: map<int, int>, bk: map<int, int>, h: int, s: seq<int>, k: int) {
    && At(h, s, k) in fd && fd[At(h, s, k)] == At(h, s, k + 1)
    && At(h, s, k + 1) in bk && bk[At(h, s, k + 1)] == At(h, s, k)
  }

  /** fd and bk thread h, s[0], s[1], ... and back to h. */
  ghost predicate Ring(fd: map<int, int>, bk: map<int, int>, h: int, s: seq<int>) {
    forall k {:trigger LinkAt(fd, bk, h, s, k)} :: -1 <= k < |s| ==> LinkAt(fd, bk, h, s, k)
  }

  ghost predicate NoDup(s: seq<int>) {
    forall i, j :: 0 <= i < j < |s| ==> s[i] != s[j]
  }

  function Without1(s: seq<int>, k: int): seq<int>
    requires 0 <= k < |s|
  {
    s[..k] + s[k + 1..]
  }

  function With1(s: seq<int>, k: int, p: int): seq<int>
    requires 0 <= k <= |s|
  {
    s[..k] + [p] + s[k..]
  }

  lemma RingRemove(fd: map<int, int>, bk: map<int, int>, h: int, s: seq<int>, k: int)
    requires Ring(fd, bk, h, s) && NoDup(s) && h !in s && 0 <= k < |s|
    ensures Ring(fd[At(h, s, k - 1) := At(h, s, k + 1)], bk[At(h, s, k + 1) := At(h, s, k - 1)], h, Without1(s, k))
  {
    var t := Without1(s, k);
    var fd', bk' := fd[At(h, s, k - 1) := At(h, s, k + 1)], bk[At(h, s, k + 1) := At(h, s, k - 1)];
    forall i | -1 <= i < |t|
      ensures LinkAt(fd', bk', h, t, i)
    {
      var j := if i < k then i else i + 1;
      assert At(h, t, i) == At(h, s, j);
      if i == k - 1 {
        assert At(h, t, i + 1) == At(h, s, k + 1);
      } else {
        assert At(h, t, i + 1) == At(h, s, j + 1);
        assert LinkAt(fd, bk, h, s, j);
        assert At(h, s, j) != At(h, s, k - 1);
        assert At(h, s, j + 1) != At(h, s, k + 1);
      }
    }
  }

  lemma RingInsert(fd: map<int, int>, bk: map<int, int>, h: int, s: seq<int>, k: int, p: int)
    requires Ring(fd, bk, h, s) && NoDup(s) && h !in s && 0 <= k <= |s| && p !in s && p != h
    ensures var b, f := At(h, s, k - 1), At(h, s, k);
            Ring(fd[p := f][b := p], bk[p := b][f := p], h, With1(s, k, p))
  {
    var t := With1(s, k, p);
    var b, f := At(h, s, k - 1), At(h, s, k);
    var fd', bk' := fd[p := f][b := p], bk[p := b][f := p];
    forall i | -1 <= i < |t|
      ensures LinkAt(fd', bk', h, t, i)
    {
      if i == k {
        assert At(h, t, i) == p && At(h, t, i + 1) == f;
      } else if i == k - 1 {
        assert At(h, t, i) == b && At(h, t, i + 1) == p;
      } else {
        var j := if i < k then i else i - 1;
        assert At(h, t, i) == At(h, s, j) && At(h, t, i + 1) == At(h, s, j + 1);
        assert LinkAt(fd, bk, h, s, j);
        assert At(h, s, j) != b && At(h, s, j) != p;
        assert At(h, s, j + 1) != f && At(h, s, j + 1) != p;
      }
    }
  }

  lemma RingFrame(fd: map<int, int>, bk: map<int, int>, fd': map<int, int>, bk': map<int, int>, h: int, s: seq<int>)
    requires Ring(fd, bk, h, s)
    requires forall k {:trigger At(h, s, k)} :: -1 <= k < |s| ==>
                 (At(h, s, k) in fd ==> At(h, s, k) in fd' && fd'[At(h, s, k)] == fd[At(h, s, k)]) &&
                 (At(h, s, k) in bk ==> At(h, s, k) in bk' && bk'[At(h, s, k)] == bk[At(h, s, k)])
    ensures Ring(fd', bk', h, s)
  {
    forall k | -1 <= k < |s|
      ensures LinkAt(fd', bk', h, s, k)
    {
      assert LinkAt(fd, bk, h, s, k);
      assert At(h, s, |s|) == At(h, s, -1);
    }
  }

  // ---------------------------------------------------------------- all bins

  ghost predicate Slotted(b: Bins, i: int, k: int)
    requires 0 <= i < |b.lists| && 0 <= k < |b.lists[i]|
  {
    var a := b.lists[i][k];
    0 < a && a in b.slot && b.slot[a] == i
  }

  ghost predicate Filed(b: Bins, a: int) {
    a in b.slot ==> 0 <= b.slot[a] < |b.lists| && a in b.lists[b.slot[a]]
  }

  /** Each binned chunk is in exactly one place of exactly one bin. */
  ghost predicate Partition(b: Bins) {
    && |b.lists| == NAV
    && (forall i, k {:trigger Slotted(b, i, k)} ::
          0 <= i < |b.lists| && 0 <= k < |b.lists[i]| ==> Slotted(b, i, k))
    && (forall i :: 0 <= i < |b.lists| ==> NoDup(b.lists[i]))
    && (forall a {:trigger Filed(b, a)} :: Filed(b, a))
  }

  ghost predicate RingAt(b: Bins, fd: map<int, int>, bk: map<int, int>, i: int)
    requires 0 <= i < |b.lists|
  {
    Ring(fd, bk, Header(i), b.lists[i])
  }

  ghost predicate Linked(b: Bins, fd: map<int, int>, bk: map<int, int>) {
    && Partition(b)
    && forall i {:trigger RingAt(b, fd, bk, i)} :: 0 <= i < NAV ==> RingAt(b, fd, bk, i)
  }

  function Take(b: Bins, i: int, k: int): Bins
    requires 0 <= i < |b.lists| && 0 <= k < |b.lists[i]|
  {
    Bins(b.lists[i := Without1(b.lists[i], k)], b.slot - {b.lists[i][k]})
  }

  function Put(b: Bins, i: int, k: int, p: int): Bins
    requires 0 <= i < |b.lists| && 0 <= k <= |b.lists[i]|
  {
    Bins(b.lists[i := With1(b.lists[i], k, p)], b.slot[p := i])
  }

  lemma TakePartition(b: Bins, i: int, k: int)
    requires Partition(b) && 0 <= i < NAV && 0 <= k < |b.lists[i]|
    ensures Partition(Take(b, i, k))
    ensures b.lists[i][k] in b.slot
  {
    var b', p := Take(b, i, k), b.lists[i][k];
    assert Slotted(b, i, k);
    forall j, m | 0 <= j < |b'.lists| && 0 <= m < |b'.lists[j]|
      ensures Slotted(b', j, m)
    {
      if j != i {
        assert Slotted(b, j, m);
      } else if m < k {
        assert Slotted(b, j, m);
      } else {
        assert Slotted(b, j, m + 1);
      }
    }
    forall a
      ensures Filed(b', a)
    {
      assert Filed(b, a);
      if a in b'.slot && b.slot[a] == i {
        var m :| 0 <= m < |b.lists[i]| && b.lists[i][m] == a;
        var m' := if m < k then m else m - 1;
        assert b'.lists[i][m'] == a;
      }
    }
  }

  lemma PutPartition(b: Bins, i: int, k: int, p: int)
    requires Partition(b) && 0 <= i < NAV && 0 <= k <= |b.lists[i]| && p !in b.slot && 0 < p
    ensures Partition(Put(b, i, k, p))
  {
    var b' := Put(b, i, k, p);
    forall j, m | 0 <= j < |b'.lists| && 0 <= m < |b'.lists[j]|
      ensures Slotted(b', j, m)
    {
      if j != i {
        assert Slotted(b, j, m);
      } else if m < k {
        assert Slotted(b, j, m);
      } else if m > k {
        assert Slotted(b, j, m - 1);
      }
    }
    NotHere(b, i, p);
    forall a
      ensures Filed(b', a)
    {
      assert Filed(b, a);
      if a == p {
        assert b'.lists[i][k] == p;
      } else if a in b.slot && b.slot[a] == i {
        var m :| 0 <= m < |b.lists[i]| && b.lists[i][m] == a;
        var m' := if m < k then m else m + 1;
        assert b'.lists[i][m'] == a;
      }
    }
  }

  lemma NotHere(b: Bins, i: int, p: int)
    requires Partition(b) && 0 <= i < NAV && (p !in b.slot || b.slot[p] != i)
    ensures p !in b.lists[i]
  {
    forall k | 0 <= k < |b.lists[i]|
      ensures b.lists[i][k] != p
    {
      assert Slotted(b, i, k);
    }
  }

  lemma HeaderNotHere(b: Bins, i: int)
    requires Partition(b) && 0 <= i < NAV
    ensures Header(i) !in b.lists[i]
  {
    forall k | 0 <= k < |b.lists[i]|
      ensures b.lists[i][k] != Header(i)
    {
      assert Slotted(b, i, k);
    }
  }

  /** unlink takes exactly the chunk at position k out of bin i. */
  lemma Unlinks(b: Bins, fd: map<int, int>, bk: map<int, int>, i: int, k: int)
    requires Linked(b, fd, bk) && 0 <= i < NAV && 0 <= k < |b.lists[i]|
    ensures var h, s := Header(i), b.lists[i];
            && s[k] in fd && fd[s[k]] == At(h, s, k + 1)
            && s[k] in bk && bk[s[k]] == At(h, s, k - 1)
            && Linked(Take(b, i, k), fd[At(h, s, k - 1) := At(h, s, k + 1)], bk[At(h, s, k + 1) := At(h, s, k - 1)])
  {
    var h, s := Header(i), b.lists[i];
    var b' := Take(b, i, k);
    var fd', bk' := fd[At(h, s, k - 1) := At(h, s, k + 1)], bk[At(h, s, k + 1) := At(h, s, k - 1)];
    assert RingAt(b, fd, bk, i);
    assert LinkAt(fd, bk, h, s, k) && LinkAt(fd, bk, h, s, k - 1);
    TakePartition(b, i, k);
    HeaderNotHere(b, i);
    RingRemove(fd, bk, h, s, k);
    forall j | 0 <= j < NAV
      ensures RingAt(b', fd', bk', j)
    {
      if j != i {
        assert RingAt(b, fd, bk, j);
        OtherRing(b, i, j, k - 1);
        OtherRing(b, i, j, k + 1);
        RingFrame(fd, bk, fd', bk', Header(j), b.lists[j]);
      }
    }
  }

  lemma OtherRing(b: Bins, i: int, j: int, m: int)
    requires Partition(b) && 0 <= i < NAV && 0 <= j < NAV && i != j
    ensures At(Header(i), b.lists[i], m) != Header(j) && At(Header(i), b.lists[i], m) !in b.lists[j]
  {
    if 0 <= m < |b.lists[i]| { assert Slotted(b, i, m); }
    var a := At(Header(i), b.lists[i], m);
    forall k | 0 <= k < |b.lists[j]|
      ensures b.lists[j][k] != a
    {
      assert Slotted(b, j, k);
    }
  }

  /** Linking p before position k of bin i, as the last three lines of frontlink do. */
  lemma Links(b: Bins, fd: map<int, int>, bk: map<int, int>, i: int, k: int, p: int)
    requires Linked(b, fd, bk) && 0 <= i < NAV && 0 <= k <= |b.lists[i]| && p !in b.slot && 0 < p
    ensures var x, f := At(Header(i), b.lists[i], k - 1), At(Header(i), b.lists[i], k);
            Linked(Put(b, i, k, p), fd[p := f][x := p], bk[p := x][f := p])
  {
    var h, s := Header(i), b.lists[i];
    var x, f := At(h, s, k - 1), At(h, s, k);
    var b' := Put(b, i, k, p);
    var fd', bk' := fd[p := f][x := p], bk[p := x][f := p];
    PutPartition(b, i, k, p);
    NotHere(b, i, p);
    HeaderNotHere(b, i);
    assert RingAt(b, fd, bk, i);
    RingInsert(fd, bk, h, s, k, p);
    forall j | 0 <= j < NAV
      ensures RingAt(b', fd', bk', j)
    {
      if j != i {
        assert RingAt(b, fd, bk, j);
        OtherRing(b, i, j, k - 1);
        OtherRing(b, i, j, k);
        NotHere(b, j, p);
        RingFrame(fd, bk, fd', bk', Header(j), b.lists[j]);
      }
    }
  }

  /** Where a binned chunk stands in its bin. */
  lemma Position(b: Bins, p: int) returns (i: int, k: int)
    requires Partition(b) && p in b.slot
    ensures 0 <= i < NAV && i == b.slot[p] && 0 <= k < |b.lists[i]| && b.lists[i][k] == p
  {
    assert Filed(b, p);
    i := b.slot[p];
    k :| 0 <= k < |b.lists[i]| && b.lists[i][k] == p;
  }

  /** link_last_remainder and clear_last_remainder on a last_remainder bin of at most one chunk. */
  lemma Remainders(b: Bins, fd: map<int, int>, bk: map<int, int>, p: int)
    requires Linked(b, fd, bk) && |b.lists[LAST_REMAINDER]| <= 1 && p !in b.slot && 0 < p
    ensures var h := Header(LAST_REMAINDER);
            var b0 := if b.lists[LAST_REMAINDER] == [] then b else Take(b, LAST_REMAINDER, 0);
            && Linked(b0, fd[h := h], bk[h := h])
            && b0.lists[LAST_REMAINDER] == []
            && Linked(Put(b0, LAST_REMAINDER, 0, p), fd[h := p][p := h], bk[h := p][p := h])
  {
    var i, h := LAST_REMAINDER, Header(LAST_REMAINDER);
    var fd0, bk0 := fd[h := h], bk[h := h];
    var b0 := b;
    assert RingAt(b, fd, bk, i);
    assert LinkAt(fd, bk, h, b.lists[i], -1);
    if b.lists[i] == [] {
      assert fd0 == fd && bk0 == bk;
    } else {
      Unlinks(b, fd, bk, i, 0);
      b0 := Take(b, i, 0);
    }
    Links(b0, fd0, bk0, i, 0, p);
    assert fd0[p := h][h := p] == fd[h := p][p := h];
    assert bk0[p := h][h := p] == bk[h := p][p := h];
  }

  // ---------------------------------------------------------------- placement by size

  ghost predicate PlacedAt(b: Bins, size: map<int, int>, i: int, k: int)
    requires 0 <= i < |b.lists| && 0 <= k < |b.lists[i]|
  {
    var a := b.lists[i][k];
    && a in size && MINSIZE <= size[a]
    && (i == LAST_REMAINDER || BinIndex(size[a]) == i)
    && (k + 1 < |b.lists[i]| ==> b.lists[i][k + 1] in size && size[b.lists[i][k + 1]] <= size[a])
  }

  /** Bin i holds the chunks of bin number i, largest first; last_remainder holds at most one chunk. */
  ghost predicate Placed(b: Bins, size: map<int, int>) {
    && |b.lists| == NAV
    && |b.lists[LAST_REMAINDER]| <= 1
    && forall i, k {:trigger PlacedAt(b, size, i, k)} ::
         0 <= i < |b.lists| && 0 <= k < |b.lists[i]| ==> PlacedAt(b, size, i, k)
  }

  lemma {:induction false} SizesFall(b: Bins, size: map<int, int>, i: int, j: int, k: int)
    requires Placed(b, size) && 0 <= i < NAV && 0 <= j <= k < |b.lists[i]|
    ensures b.lists[i][j] in size && b.lists[i][k] in size && size[b.lists[i][k]] <= size[b.lists[i][j]]
    decreases k - j
  {
    assert PlacedAt(b, size, i, j);
    if j < k {
      SizesFall(b, size, i, j + 1, k);
    }
  }

  lemma TakePlaced(b: Bins, size: map<int, int>, i: int, k: int)
    requires Placed(b, size) && 0 <= i < NAV && 0 <= k < |b.lists[i]|
    ensures Placed(Take(b, i, k), size)
  {
    var b' := Take(b, i, k);
    forall j, m | 0 <= j < |b'.lists| && 0 <= m < |b'.lists[j]|
      ensures PlacedAt(b', size, j, m)
    {
      if j != i {
        assert PlacedAt(b, size, j, m);
      } else if m < k {
        assert PlacedAt(b, size, j, m);
        if m == k - 1 { assert PlacedAt(b, size, j, k); }
      } else {
        assert PlacedAt(b, size, j, m + 1);
      }
    }
  }

  lemma PutPlaced(b: Bins, size: map<int, int>, i: int, k: int, p: int)
    requires Placed(b, size) && 0 <= i < NAV && 0 <= k <= |b.lists[i]|
    requires p in size && MINSIZE <= size[p]
    requires if i == LAST_REMAINDER then b.lists[i] == [] else BinIndex(size[p]) == i
    requires 0 < k ==> b.lists[i][k - 1] in size && size[p] <= size[b.lists[i][k - 1]]
    requires k < |b.lists[i]| ==> b.lists[i][k] in size && size[b.lists[i][k]] <= size[p]
    ensures Placed(Put(b, i, k, p), size)
  {
    var b' := Put(b, i, k, p);
    forall j, m | 0 <= j < |b'.lists| && 0 <= m < |b'.lists[j]|
      ensures PlacedAt(b', size, j, m)
    {
      if j != i {
        assert PlacedAt(b, size, j, m);
      } else if m < k {
        assert PlacedAt(b, size, j, m);
      } else if m > k {
        assert PlacedAt(b, size, j, m - 1);
      }
    }
  }

  /** Only the sizes of binned chunks matter. */
  lemma PlacedFrame(b: Bins, size: map<int, int>, size': map<int, int>)
    requires Partition(b) && Placed(b, size)
    requires forall a :: a in b.slot && a in size ==> a in size' && size'[a] == size[a]
    ensures Placed(b, size')
  {
    forall i, k | 0 <= i < |b.lists| && 0 <= k < |b.lists[i]|
      ensures PlacedAt(b, size', i, k)
    {
      assert PlacedAt(b, size, i, k) && Slotted(b, i, k);
      if k + 1 < |b.lists[i]| { assert Slotted(b, i, k + 1); }
    }
  }

  /** A non-empty ordinary bin has the bit of its block set in binblocks. */
  ghost predicate Indexed(b: Bins, bb: bv32) {
    && |b.lists| == NAV
    && forall i :: 2 <= i < NAV && b.lists[i] != [] ==> Marked(bb, i / 4)
  }

  lemma UnmarkedIsEmpty(b: Bins, bb: bv32, k: int)
    requires Indexed(b, bb) && 0 < k < 32 && !Marked(bb, k)
    ensures forall i :: k * 4 <= i < (k + 1) * 4 ==> b.lists[i] == []
  {
    hide Marked;
    forall i | k * 4 <= i < (k + 1) * 4
      ensures b.lists[i] == []
    {
      assert i / 4 == k;
    }
  }

  /** last_remainder holds whatever size it likes. */
  lemma PlacedResize(b: Bins, size: map<int, int>, size': map<int, int>, p: int)
    requires Partition(b) && Placed(b, size)
    requires forall a :: a in b.slot && a != p && a in size ==> a in size' && size'[a] == size[a]
    requires p in b.slot ==> b.slot[p] == LAST_REMAINDER && p in size' && MINSIZE <= size'[p]
    ensures Placed(b, size')
  {
    forall i, k | 0 <= i < |b.lists| && 0 <= k < |b.lists[i]|
      ensures PlacedAt(b, size', i, k)
    {
      assert PlacedAt(b, size, i, k) && Slotted(b, i, k);
      if k + 1 < |b.lists[i]| { assert Slotted(b, i, k + 1); }
    }
  }

  // ---------------------------------------------------------------- fits

  /** Bin i has a chunk of at least nb bytes. */
  ghost predicate HasFit(b: Bins, size: map<int, int>, i: int, nb: int)
    requires 0 <= i < |b.lists|
  {
    exists k :: 0 <= k < |b.lists[i]| && b.lists[i][k] in size && nb <= size[b.lists[i][k]]
  }

  /** p is a smallest chunk of at least nb bytes among bins lo and up. */
  ghost predicate BestFrom(b: Bins, size: map<int, int>, lo: int, nb: int, p: int) {
    && p in b.slot && p in size && nb <= size[p] && lo <= b.slot[p]
    && forall a :: a in b.slot && a in size && lo <= b.slot[a] && nb <= size[a] ==> size[p] <= size[a]
  }

  ghost predicate NoneFrom(b: Bins, size: map<int, int>, lo: int, nb: int) {
    forall a :: a in b.slot && a in size && lo <= b.slot[a] ==> size[a] < nb
  }

  /** What the exact-fit stage leaves for the scan from bin idx: no ordinary bin below idx holds a fit. */
  ghost predicate ReadyToScan(b: Bins, size: map<int, int>, idx: int, nb: int)
    requires |b.lists| == NAV && 0 <= nb
  {
    && 4 <= idx < NAV && BinIndex(nb) <= idx
    && (BinIndex(nb) == idx ==> HasFit(b, size, idx, nb))
    && (forall a :: a in b.slot && a in size && 2 <= b.slot[a] < idx ==> size[a] < nb)
  }
}
