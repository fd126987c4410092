/**
 The arena of lib/dlmalloc.c seen as a tiling: which addresses start a chunk, how long
 each chunk is and which chunks are free.  The boundary tags of the allocator (the size
 word with its PREV_INUSE bit, and the footer a free chunk leaves in its neighbour) are
 two maps over chunk addresses, and Tagged says when they tell the truth about a tiling.
 */
module MallocTiling {
  import opened MallocSizes

  /**
   base..top holds the ordinary chunks; size gives their lengths, prev the chunk that ends
   where another starts; top..top+topSize is the top chunk (topSize is 0 before the first sbrk).
   */
  datatype Tiling = Tiling(base: int, top: int, topSize: int,
                           size: map<int, int>, prev: map<int, int>, free: set<int>)

  function Next(w: Tiling, a: int): int
    requires a in w.size
  {
    a + w.size[a]
  }

  ghost predicate ChunkFits(w: Tiling, a: int)
    requires a in w.size
  {
    && w.base <= a
    && MINSIZE <= w.size[a]
    && Next(w, a) <= w.top
    && (Next(w, a) in w.size || Next(w, a) == w.top)
    && Next(w, a) in w.prev && w.prev[Next(w, a)] == a
  }

  ghost predicate PrevFits(w: Tiling, b: int) {
    && (b in w.prev ==> w.prev[b] in w.size && Next(w, w.prev[b]) == b)
    && (b in w.prev <==> b != w.base && (b in w.size || b == w.top))
  }

  /**
   The chunks tile base..top: legal, without gaps and navigable both ways (Disjoint shows
   that they cannot overlap).  The triggers keep the two navigation facts from chasing each other.
   */
  ghost predicate Tiled(w: Tiling) {
    && 0 < w.base <= w.top
    && (w.base == w.top || w.base in w.size)
    && (MINSIZE <= w.topSize || (w.topSize == 0 && w.size == map[]))
    && w.top + w.topSize - w.base < LONG_MAX
    && (forall a {:trigger ChunkFits(w, a)} :: a in w.size ==> ChunkFits(w, a))
    && (forall b {:trigger PrevFits(w, b)} :: PrevFits(w, b))
  }

  ghost predicate AlignedAt(w: Tiling, a: int)
    requires a in w.size
  {
    a % 8 == 0 && w.size[a] % 8 == 0
  }

  ghost predicate Aligned(w: Tiling) {
    && w.base % 8 == 0
    && w.top % 8 == 0
    && w.topSize % 8 == 0
    && forall a {:trigger AlignedAt(w, a)} :: a in w.size ==> AlignedAt(w, a)
  }

  ghost predicate StandsAlone(w: Tiling, a: int) {
    a in w.size && Next(w, a) in w.size && Next(w, a) !in w.free
  }

  /** No two free chunks touch, and none touches top. */
  ghost predicate Coalesced(w: Tiling) {
    forall a {:trigger StandsAlone(w, a)} :: a in w.free ==> StandsAlone(w, a)
  }

  /** The PREV_INUSE bit that belongs in the size word of the chunk at b. */
  function PrevInUse(w: Tiling, b: int): int {
    if b in w.prev && w.prev[b] in w.free then 0 else 1
  }

  /** The size word at a is right, and so is the footer if the chunk is free. */
  ghost predicate TagFits(w: Tiling, head: map<int, int>, foot: map<int, int>, a: int)
    requires a in w.size
  {
    && a in head && head[a] == w.size[a] + PrevInUse(w, a)
    && (a in w.free ==> Next(w, a) in foot && foot[Next(w, a)] == w.size[a])
  }

  /** head is the size word, foot the prev_size word, of the chunk at an address. */
  ghost predicate Tagged(w: Tiling, head: map<int, int>, foot: map<int, int>) {
    && (forall a {:trigger TagFits(w, head, foot, a)} :: a in w.size ==> TagFits(w, head, foot, a))
    && (w.topSize != 0 ==> w.top in head && head[w.top] == w.topSize + 1)
  }

  /** Everything the boundary tags promise. */
  ghost predicate Heap(w: Tiling, head: map<int, int>, foot: map<int, int>) {
    Tiled(w) && Aligned(w) && Coalesced(w) && Tagged(w, head, foot)
  }

  function Used(w: Tiling): set<int> {
    w.size.Keys - w.free
  }

  // ---------------------------------------------------------------- steps on tilings

  /** Cut the chunk at a after n bytes. */
  function Split(w: Tiling, a: int, n: int): Tiling
    requires a in w.size
  {
    w.(size := w.size[a := n][a + n := w.size[a] - n],
    prev := w.prev[a + n := a][Next(w, a) := a + n])
  }

  /** Join the chunk at a with the chunk that follows it. */
  function Join(w: Tiling, a: int): Tiling
    requires a in w.size && Next(w, a) in w.size
  {
    var b := Next(w, a);
    w.(size := (w.size - {b})[a := w.size[a] + w.size[b]],
    prev := (w.prev - {b})[Next(w, b) := a])
  }

  /** Cut n bytes off the low end of top. */
  function Carve(w: Tiling, n: int): Tiling {
    w.(size := w.size[w.top := n],
    prev := w.prev[w.top + n := w.top],
    top := w.top + n,
    topSize := w.topSize - n)
  }

  /** Let top swallow the chunk at a, which borders it. */
  function Absorb(w: Tiling, a: int): Tiling
    requires a in w.size
  {
    w.(size := w.size - {a},
    prev := w.prev - {w.top},
    top := a,
    topSize := w.topSize + w.size[a])
  }

  /** Chunks of a tiling never overlap. */
  lemma {:induction false} Disjoint(w: Tiling, a: int, b: int)
    requires Tiled(w) && a in w.size && b in w.size && a < b
    ensures Next(w, a) <= b
    decreases b - w.base
  {
    assert ChunkFits(w, a) && ChunkFits(w, b) && PrevFits(w, b);
    var c := w.prev[b];
    assert ChunkFits(w, c);
    if a < c {
      Disjoint(w, a, c);
    } else if c < a {
      Disjoint(w, c, a);
    }
  }

  lemma TopIsNoChunk(w: Tiling)
    requires Tiled(w)
    ensures w.top !in w.size
  {
    assert w.top in w.size ==> ChunkFits(w, w.top);
  }

  lemma InsideIsNoChunk(w: Tiling, a: int, x: int)
    requires Tiled(w) && a in w.size && a < x < Next(w, a)
    ensures x !in w.size && x !in w.prev && x != w.top
  {
    if x in w.size { Disjoint(w, a, x); }
    assert ChunkFits(w, a) && PrevFits(w, x);
  }

  lemma SplitTiled(w: Tiling, a: int, n: int)
    requires Tiled(w) && a in w.size && MINSIZE <= n <= w.size[a] - MINSIZE
    ensures Tiled(Split(w, a, n))
    ensures a + n !in w.size
  {
    InsideIsNoChunk(w, a, a + n);
    var w' := Split(w, a, n);
    assert ChunkFits(w, a) && PrevFits(w, Next(w, a));
    forall x | x in w'.size
      ensures ChunkFits(w', x)
    {
      if x != a && x != a + n { assert ChunkFits(w, x); }
    }
    forall b
      ensures PrevFits(w', b)
    {
      assert PrevFits(w, b);
    }
  }

  lemma JoinTiled(w: Tiling, a: int)
    requires Tiled(w) && a in w.size && Next(w, a) in w.size
    ensures Tiled(Join(w, a))
  {
    var w' := Join(w, a);
    var b := Next(w, a);
    assert ChunkFits(w, a) && ChunkFits(w, b) && PrevFits(w, Next(w, b));
    forall x | x in w'.size
      ensures ChunkFits(w', x)
    {
      assert ChunkFits(w, x);
    }
    forall c
      ensures PrevFits(w', c)
    {
      assert PrevFits(w, c);
    }
  }

  lemma CarveTiled(w: Tiling, n: int)
    requires Tiled(w) && MINSIZE <= n <= w.topSize - MINSIZE
    ensures Tiled(Carve(w, n))
    ensures w.top !in w.size
  {
    TopIsNoChunk(w);
    var w' := Carve(w, n);
    forall x | x in w'.size
      ensures ChunkFits(w', x)
    {
      if x != w.top { assert ChunkFits(w, x); }
    }
    forall c
      ensures PrevFits(w', c)
    {
      assert PrevFits(w, c);
      if c in w.size { assert ChunkFits(w, c); }
    }
  }

  lemma AbsorbTiled(w: Tiling, a: int)
    requires Tiled(w) && a in w.size && Next(w, a) == w.top
    ensures Tiled(Absorb(w, a))
  {
    var w' := Absorb(w, a);
    assert ChunkFits(w, a);
    TopIsNoChunk(w);
    forall x | x in w'.size
      ensures ChunkFits(w', x)
    {
      assert ChunkFits(w, x);
      if a < x { Disjoint(w, a, x); }
      if x < a { Disjoint(w, x, a); }
    }
    forall c
      ensures PrevFits(w', c)
    {
      assert PrevFits(w, c);
    }
  }

  lemma FreeIrrelevant(w: Tiling, f: set<int>)
    requires Tiled(w) && Aligned(w)
    ensures Tiled(w.(free := f)) && Aligned(w.(free := f))
  {
    var w' := w.(free := f);
    forall x | x in w'.size
      ensures ChunkFits(w', x) && AlignedAt(w', x)
    {
      assert ChunkFits(w, x) && AlignedAt(w, x);
    }
    forall c
      ensures PrevFits(w', c)
    {
      assert PrevFits(w, c);
    }
  }

  // ---------------------------------------------------------------- steps on tags

  lemma Decode(x: int, size: int, bit: int)
    requires x == size + bit && size % 8 == 0 && 0 <= bit <= 1
    ensures x - x % 2 == size == x - x % 4 && x % 2 == bit
  {
    var k := size / 8;
    assert x == 2 * (4 * k) + bit;
    assert x == 4 * (2 * k) + bit;
  }

  /** What fREe and mALLOc read off the tags of the chunk at p. */
  lemma ReadTags(w: Tiling, head: map<int, int>, foot: map<int, int>, p: int)
    requires Heap(w, head, foot) && p in w.size
    ensures p in head && head[p] - head[p] % 2 == w.size[p] == head[p] - head[p] % 4
    ensures head[p] % 2 == PrevInUse(w, p)
    ensures Next(w, p) in w.size || Next(w, p) == w.top
    ensures Next(w, p) in head
    ensures head[Next(w, p)] % 2 == 0 <==> p in w.free
    ensures head[p] % 2 == 0 ==> p in foot && p - foot[p] in w.free && p - foot[p] in w.size && Next(w, p - foot[p]) == p
    ensures p in w.free ==> head[p] % 2 == 1 && Next(w, p) in w.size
  {
    assert ChunkFits(w, p) && PrevFits(w, p) && AlignedAt(w, p) && TagFits(w, head, foot, p);
    var n := Next(w, p);
    assert PrevFits(w, n);
    assert p in w.free ==> StandsAlone(w, p);
    Decode(head[p], w.size[p], PrevInUse(w, p));
    if n in w.size {
      assert TagFits(w, head, foot, n) && AlignedAt(w, n);
      Decode(head[n], w.size[n], PrevInUse(w, n));
    } else {
      Decode(head[n], w.topSize, 1);
    }
    if p in w.prev {
      var q := w.prev[p];
      assert TagFits(w, head, foot, q);
      assert q in w.free ==> StandsAlone(w, q);
    }
  }

  /** set_inuse_bit_at_offset turns a whole free chunk into a used one. */
  lemma TakeWhole(w: Tiling, head: map<int, int>, foot: map<int, int>, a: int)
    requires Heap(w, head, foot) && a in w.free
    ensures StandsAlone(w, a) && Next(w, a) in head && head[Next(w, a)] % 2 == 0
    ensures Heap(w.(free := w.free - {a}), head[Next(w, a) := head[Next(w, a)] + 1], foot)
  {
    assert StandsAlone(w, a);
    ReadTags(w, head, foot, a);
    FreeIrrelevant(w, w.free - {a});
    var n, w' := Next(w, a), w.(free := w.free - {a});
    var head' := head[n := head[n] + 1];
    TopIsNoChunk(w);
    assert PrevFits(w, n) && ChunkFits(w, a);
    forall x | x in w'.size
      ensures TagFits(w', head', foot, x)
    {
      assert TagFits(w, head, foot, x) && PrevFits(w, x);
    }
    forall x | x in w'.free
      ensures StandsAlone(w', x)
    {
      assert StandsAlone(w, x);
    }
  }

  /** The tiling after a free chunk is cut, its front used and its rest free. */
  function SplitFree(w: Tiling, a: int, n: int): Tiling
    requires a in w.size
  {
    Split(w, a, n).(free := w.free - {a} + {a + n})
  }

  lemma TakeSplit(w: Tiling, head: map<int, int>, foot: map<int, int>, a: int, n: int)
    requires Heap(w, head, foot) && a in w.free
    requires a in w.size && MINSIZE <= n <= w.size[a] - MINSIZE && n % 8 == 0
    ensures a + n !in w.size
    ensures Heap(SplitFree(w, a, n),
                 head[a := n + 1][a + n := w.size[a] - n + 1],
                 foot[a + n + (w.size[a] - n) := w.size[a] - n])
  {
    SplitTiled(w, a, n);
    InsideIsNoChunk(w, a, a + n);
    var r := w.size[a] - n;
    var w' := SplitFree(w, a, n);
    assert AlignedAt(w, a) && StandsAlone(w, a);
    assert Aligned(Split(w, a, n)) by {
      forall x | x in Split(w, a, n).size
        ensures AlignedAt(Split(w, a, n), x)
      {
        if x != a && x != a + n { assert AlignedAt(w, x); }
      }
    }
    FreeIrrelevant(Split(w, a, n), w'.free);
    SplitTags(w, head, foot, a, n);
  }

  lemma SplitTags(w: Tiling, head: map<int, int>, foot: map<int, int>, a: int, n: int)
    requires Heap(w, head, foot) && a in w.free && a in w.size && a + n !in w.size && a + n !in w.prev
    requires MINSIZE <= n <= w.size[a] - MINSIZE
    ensures Coalesced(SplitFree(w, a, n))
    ensures Tagged(SplitFree(w, a, n),
                   head[a := n + 1][a + n := w.size[a] - n + 1],
                   foot[a + n + (w.size[a] - n) := w.size[a] - n])
  {
    var r := w.size[a] - n;
    var w' := SplitFree(w, a, n);
    var head' := head[a := n + 1][a + n := r + 1];
    var foot' := foot[a + n + r := r];
    assert StandsAlone(w, a) && ChunkFits(w, a) && PrevFits(w, a) && PrevFits(w, Next(w, a));
    TopIsNoChunk(w);
    forall x | x in w'.free
      ensures StandsAlone(w', x)
    {
      if x != a + n { assert StandsAlone(w, x); }
    }
    var c := if a in w.prev then w.prev[a] else a;
    assert c in w.free ==> StandsAlone(w, c);
    forall x | x in w'.size
      ensures TagFits(w', head', foot', x)
    {
      if x != a && x != a + n {
        assert TagFits(w, head, foot, x) && PrevFits(w, x) && ChunkFits(w, x);
        assert x in w.free ==> PrevFits(w, Next(w, x));
      }
    }
    InsideIsNoChunk(w, a, a + n);
  }

  lemma CarveTags(w: Tiling, head: map<int, int>, foot: map<int, int>, n: int)
    requires Heap(w, head, foot)
    requires MINSIZE <= n <= w.topSize - MINSIZE && n % 8 == 0
    ensures w.top !in w.size
    ensures Heap(Carve(w, n), head[w.top := n + 1][w.top + n := w.topSize - n + 1], foot)
  {
    CarveTiled(w, n);
    CarveAligned(w, n);
    var w' := Carve(w, n);
    var head' := head[w.top := n + 1][w.top + n := w.topSize - n + 1];
    assert PrevFits(w, w.top) && PrevFits(w, w.top + n);
    var c := if w.top in w.prev then w.prev[w.top] else w.top;
    assert c in w.free ==> StandsAlone(w, c);
    assert w.top in w.free ==> StandsAlone(w, w.top);
    forall x | x in w'.free
      ensures StandsAlone(w', x)
    {
      assert StandsAlone(w, x);
    }
    forall x | x in w'.size
      ensures TagFits(w', head', foot, x)
    {
      if x != w.top {
        assert TagFits(w, head, foot, x) && ChunkFits(w, x) && PrevFits(w, x);
        assert x in w.free ==> StandsAlone(w, x);
      }
    }
  }

  lemma CarveAligned(w: Tiling, n: int)
    requires Aligned(w) && n % 8 == 0
    ensures Aligned(Carve(w, n))
  {
    forall x | x in Carve(w, n).size
      ensures AlignedAt(Carve(w, n), x)
    {
      if x != w.top { assert AlignedAt(w, x); }
    }
  }

  /** top gains or loses bytes at its high end. */
  lemma ResizeTop(w: Tiling, head: map<int, int>, foot: map<int, int>, t: int)
    requires Heap(w, head, foot) && w.topSize != 0
    requires MINSIZE <= t && t % 8 == 0 && w.top + t - w.base < LONG_MAX
    ensures Heap(w.(topSize := t), head[w.top := t + 1], foot)
  {
    var w' := w.(topSize := t);
    TopIsNoChunk(w);
    assert Tiled(w') && Aligned(w') by {
      forall x | x in w'.size
        ensures ChunkFits(w', x) && AlignedAt(w', x)
      {
        assert ChunkFits(w, x) && AlignedAt(w, x);
      }
      forall c
        ensures PrevFits(w', c)
      {
        assert PrevFits(w, c);
      }
    }
    forall x | x in w'.size
      ensures TagFits(w', head[w.top := t + 1], foot, x)
    {
      assert TagFits(w, head, foot, x);
    }
    forall x | x in w'.free
      ensures StandsAlone(w', x)
    {
      assert StandsAlone(w, x);
    }
  }

  /** The tiling when top swallows the used chunk p. */
  lemma AbsorbTags(w: Tiling, head: map<int, int>, foot: map<int, int>, p: int)
    requires Heap(w, head, foot) && p in w.size && p !in w.free && Next(w, p) == w.top
    requires PrevInUse(w, p) == 1
    ensures Heap(Absorb(w, p), head[p := w.size[p] + w.topSize + 1], foot)
  {
    AbsorbTiled(w, p);
    var w' := Absorb(w, p);
    var head' := head[p := w.size[p] + w.topSize + 1];
    ReadTags(w, head, foot, p);
    AbsorbAligned(w, p);
    TopIsNoChunk(w);
    assert PrevFits(w, p);
    forall x | x in w'.free
      ensures StandsAlone(w', x)
    {
      assert StandsAlone(w, x);
      assert PrevFits(w, p) && ChunkFits(w, x);
    }
    forall x | x in w'.size
      ensures TagFits(w', head', foot, x)
    {
      assert TagFits(w, head, foot, x) && PrevFits(w, x);
    }
  }

  lemma AbsorbAligned(w: Tiling, p: int)
    requires Aligned(w) && p in w.size && Next(w, p) == w.top
    ensures Aligned(Absorb(w, p))
  {
    assert AlignedAt(w, p);
    forall x | x in Absorb(w, p).size
      ensures AlignedAt(Absorb(w, p), x)
    {
      assert AlignedAt(w, x);
    }
  }

  /** Joining the used chunk p to the free chunk before it: the result counts as used. */
  function JoinBack(w: Tiling, q: int): Tiling
    requires q in w.size && Next(w, q) in w.size
  {
    Join(w, q).(free := w.free - {q})
  }

  lemma JoinBackTags(w: Tiling, head: map<int, int>, foot: map<int, int>, q: int)
    requires Heap(w, head, foot) && q in w.free && q in w.size && Next(w, q) in w.size
    ensures Next(w, q) in w.size && Next(w, q) !in w.free
    ensures Heap(JoinBack(w, q), head[q := w.size[q] + w.size[Next(w, q)] + 1], foot)
  {
    var p := Next(w, q);
    var n := Next(w, p);
    assert StandsAlone(w, q);
    JoinTiled(w, q);
    ReadTags(w, head, foot, q);
    ReadTags(w, head, foot, p);
    assert ChunkFits(w, q) && ChunkFits(w, p) && PrevFits(w, q) && PrevFits(w, p) && PrevFits(w, n);
    JoinAligned(w, q);
    FreeIrrelevant(Join(w, q), w.free - {q});
    var w' := JoinBack(w, q);
    var head' := head[q := w.size[q] + w.size[p] + 1];
    forall x | x in w'.free
      ensures StandsAlone(w', x)
    {
      assert StandsAlone(w, x) && ChunkFits(w, x);
    }
    forall x | x in w'.size
      ensures TagFits(w', head', foot, x)
    {
      assert TagFits(w, head, foot, x) && PrevFits(w, x);
    }
    TopIsNoChunk(w);
  }

  lemma JoinAligned(w: Tiling, q: int)
    requires Tiled(w) && Aligned(w) && q in w.size && Next(w, q) in w.size
    ensures Aligned(Join(w, q))
  {
    var w' := Join(w, q);
    forall x | x in w'.size
      ensures AlignedAt(w', x)
    {
      assert AlignedAt(w, x) && AlignedAt(w, Next(w, q)) && AlignedAt(w, q);
    }
  }

  /** Joining the used chunk p to the free chunk after it: the result counts as used. */
  function JoinForward(w: Tiling, p: int): Tiling
    requires p in w.size && Next(w, p) in w.size
  {
    Join(w, p).(free := w.free - {Next(w, p)})
  }

  /** The size word of the chunk after the joined one still says "previous free": only that tag is off. */
  ghost predicate TaggedBut(w: Tiling, head: map<int, int>, foot: map<int, int>, n: int) {
    && (forall a {:trigger TagFits(w, head, foot, a)} :: a in w.size && a != n ==> TagFits(w, head, foot, a))
    && (w.topSize != 0 ==> w.top in head && head[w.top] == w.topSize + 1)
  }

  lemma JoinForwardTags(w: Tiling, head: map<int, int>, foot: map<int, int>, p: int)
    requires Heap(w, head, foot) && p in w.size && p !in w.free && Next(w, p) in w.free && PrevInUse(w, p) == 1
    ensures Next(w, p) in w.size && Next(w, Next(w, p)) in w.size
    ensures Tiled(JoinForward(w, p)) && Aligned(JoinForward(w, p)) && Coalesced(JoinForward(w, p))
    ensures TaggedBut(JoinForward(w, p), head[p := w.size[p] + w.size[Next(w, p)] + 1], foot, Next(w, Next(w, p)))
    ensures var e := Next(w, Next(w, p)); e !in w.free && e in head && head[e] == w.size[e]
  {
    var b := Next(w, p);
    assert StandsAlone(w, b);
    var e := Next(w, b);
    JoinTiled(w, p);
    JoinAligned(w, p);
    FreeIrrelevant(Join(w, p), w.free - {b});
    ReadTags(w, head, foot, b);
    assert ChunkFits(w, p) && ChunkFits(w, b) && PrevFits(w, p) && PrevFits(w, b) && PrevFits(w, e);
    assert TagFits(w, head, foot, e);
    var w' := JoinForward(w, p);
    forall x | x in w'.free
      ensures StandsAlone(w', x)
    {
      assert StandsAlone(w, x) && ChunkFits(w, x);
    }
    forall x | x in w'.size && x != e
      ensures TagFits(w', head[p := w.size[p] + w.size[b] + 1], foot, x)
    {
      assert TagFits(w, head, foot, x) && PrevFits(w, x);
    }
    TopIsNoChunk(w);
  }

  /**
   set_head(next, nextsz), set_head(p, sz | PREV_INUSE) and set_foot(p, sz): a used chunk whose
   neighbours are used becomes free.  The tag of the following chunk may be off beforehand.
   */
  lemma ReleaseTags(w: Tiling, head: map<int, int>, foot: map<int, int>, p: int, head': map<int, int>)
    requires Tiled(w) && Aligned(w) && Coalesced(w) && p in w.size && p !in w.free
    requires Next(w, p) in w.size && Next(w, p) !in w.free && PrevInUse(w, p) == 1
    requires TaggedBut(w, head, foot, Next(w, p))
    requires head' == head[Next(w, p) := w.size[Next(w, p)]][p := w.size[p] + 1]
    ensures Heap(w.(free := w.free + {p}), head', foot[Next(w, p) := w.size[p]])
  {
    var w' := w.(free := w.free + {p});
    var n := Next(w, p);
    FreeIrrelevant(w, w'.free);
    assert ChunkFits(w, p) && PrevFits(w, n) && PrevFits(w, p);
    TopIsNoChunk(w);
    forall x | x in w'.free
      ensures StandsAlone(w', x)
    {
      if x != p { assert StandsAlone(w, x) && ChunkFits(w, x); }
    }
    forall x | x in w'.size
      ensures TagFits(w', head', foot[n := w.size[p]], x)
    {
      assert ChunkFits(w, x) && PrevFits(w, x);
      if x != n { assert TagFits(w, head, foot, x); }
    }
  }

  /** A used chunk cut into two used ones, as mEMALIGn does: only the new size words change. */
  lemma SplitUsedTags(w: Tiling, head: map<int, int>, foot: map<int, int>, a: int, n: int)
    requires Heap(w, head, foot) && a in w.size && a !in w.free
    requires MINSIZE <= n <= w.size[a] - MINSIZE && n % 8 == 0
    ensures a + n !in w.size
    ensures Heap(Split(w, a, n), head[a + n := w.size[a] - n + 1][a := n + PrevInUse(w, a)], foot)
  {
    SplitTiled(w, a, n);
    InsideIsNoChunk(w, a, a + n);
    var w' := Split(w, a, n);
    var head' := head[a + n := w.size[a] - n + 1][a := n + PrevInUse(w, a)];
    assert ChunkFits(w, a) && AlignedAt(w, a) && PrevFits(w, a) && PrevFits(w, Next(w, a));
    assert a + n in w.free ==> StandsAlone(w, a + n);
    TopIsNoChunk(w);
    forall x | x in w'.free
      ensures StandsAlone(w', x)
    {
      assert StandsAlone(w, x);
    }
    forall x | x in w'.size
      ensures AlignedAt(w', x) && TagFits(w', head', foot, x)
    {
      if x != a && x != a + n {
        assert AlignedAt(w, x) && TagFits(w, head, foot, x) && PrevFits(w, x);
      }
    }
  }

  /** Size words of addresses that start no chunk do not matter. */
  lemma StaleHeads(w: Tiling, head: map<int, int>, head': map<int, int>, foot: map<int, int>)
    requires Heap(w, head, foot)
    requires forall a :: a in w.size && a in head ==> a in head' && head'[a] == head[a]
    requires w.top in head ==> w.top in head' && head'[w.top] == head[w.top]
    ensures Heap(w, head', foot)
  {
    forall x | x in w.size
      ensures TagFits(w, head', foot, x)
    {
      assert TagFits(w, head, foot, x);
    }
  }

  // ---------------------------------------------------------------- what fREe does to the tiling

  /** Where the chunk that fREe(p) leaves behind starts, and how long it is. */
  function FreedStart(w: Tiling, p: int): int {
    if PrevInUse(w, p) == 0 then w.prev[p] else p
  }

  /** p joined with a free chunk before it, if any; the result still counts as used. */
  function MergedBack(w: Tiling, p: int): Tiling
    requires Tiled(w) && p in w.size
  {
    assert PrevFits(w, p);
    if PrevInUse(w, p) == 0 then JoinBack(w, w.prev[p]) else w
  }

  lemma MergedBackTags(w: Tiling, head: map<int, int>, foot: map<int, int>, p: int)
    requires Heap(w, head, foot) && p in w.size && p !in w.free
    ensures var q, w1 := FreedStart(w, p), MergedBack(w, p);
            && q in w1.size && q !in w1.free && Next(w1, q) == Next(w, p) && PrevInUse(w1, q) == 1
            && w1.top == w.top && w1.topSize == w.topSize && w1.base == w.base
            && Heap(w1, head[q := w1.size[q] + 1], foot)
  {
    assert PrevFits(w, p) && ChunkFits(w, p);
    ReadTags(w, head, foot, p);
    if PrevInUse(w, p) == 0 {
      var q := w.prev[p];
      JoinBackTags(w, head, foot, q);
      ReadTags(w, head, foot, q);
      assert PrevFits(w, q);
    } else {
      assert head[p := w.size[p] + 1] == head;
    }
  }

  /** The whole effect of fREe(p) when p does not border top. */
  function Freed(w: Tiling, p: int): Tiling
    requires Tiled(w) && p in w.size
    requires FreedStart(w, p) in MergedBack(w, p).size
  {
    var q, w1 := FreedStart(w, p), MergedBack(w, p);
    var w2 := if Next(w1, q) in w1.free && Next(w1, q) in w1.size then JoinForward(w1, q) else w1;
    w2.(free := w2.free + {q})
  }

  /** Size and free set after a chunk has been freed and merged with its free neighbours. */
  lemma FreedShape(w: Tiling, head: map<int, int>, foot: map<int, int>, p: int)
    requires Heap(w, head, foot) && p in w.size && p !in w.free && Next(w, p) in w.size
    ensures FreedStart(w, p) in MergedBack(w, p).size && FreedStart(w, p) in Freed(w, p).size && FreedStart(w, p) in w.size
    ensures var q, n := FreedStart(w, p), Next(w, p);
            && Freed(w, p).size[q] == p - q + w.size[p] + (if n in w.free then w.size[n] else 0)
            && Freed(w, p).free == w.free - {n} + {q}
  {
    hide Tagged, Aligned;
    FreedTags(w, head, foot, p);
    ReadTags(w, head, foot, p);
    assert PrevFits(w, p) && ChunkFits(w, p);
    assert PrevInUse(w, p) == 0 ==> ChunkFits(w, FreedStart(w, p));
    assert ChunkFits(w, Next(w, p));
  }

  lemma FreedTags(w: Tiling, head: map<int, int>, foot: map<int, int>, p: int)
    requires Heap(w, head, foot) && p in w.size && p !in w.free && Next(w, p) in w.size
    ensures FreedStart(w, p) in MergedBack(w, p).size
    ensures var q, w', n := FreedStart(w, p), Freed(w, p), Next(w, p);
            && q in w'.size
            && Heap(w', head[n := w.size[n]][q := w'.size[q] + 1], foot[q + w'.size[q] := w'.size[q]])
  {
    MergedBackTags(w, head, foot, p);
    var q, w1, n := FreedStart(w, p), MergedBack(w, p), Next(w, p);
    var w' := Freed(w, p);
    var head1 := head[q := w1.size[q] + 1];
    var head' := head[n := w.size[n]][q := w'.size[q] + 1];
    assert ChunkFits(w1, q) && PrevFits(w1, n);
    TopIsNoChunk(w);
    assert n in w1.size && w1.size[n] == w.size[n];
    if n in w1.free {
      JoinForwardTags(w1, head1, foot, q);
      var w2 := JoinForward(w1, q);
      var e := Next(w1, n);
      var head2 := head1[q := w2.size[q] + 1];
      ReleaseTags(w2, head2, foot, q, head2[e := w2.size[e]][q := w2.size[q] + 1]);
      StaleHeads(w', head2[e := w2.size[e]][q := w2.size[q] + 1], head', foot[q + w'.size[q] := w'.size[q]]);
    } else {
      ReleaseTags(w1, head1, foot, q, head1[n := w1.size[n]][q := w1.size[q] + 1]);
      assert head1[n := w1.size[n]][q := w1.size[q] + 1] == head';
    }
  }

  /** From w0 to w1 exactly the live chunk p is gone. */
  ghost predicate Released(w0: Tiling, w1: Tiling, p: int) {
    Used(w1) == Used(w0) - {p} && forall a :: a in Used(w1) ==> w1.size[a] == w0.size[a]
  }

  lemma FreedLive(w: Tiling, head: map<int, int>, foot: map<int, int>, p: int)
    requires Heap(w, head, foot) && p in w.size && p !in w.free && Next(w, p) in w.size
    requires FreedStart(w, p) in MergedBack(w, p).size
    ensures Released(w, Freed(w, p), p)
  {
    MergedBackTags(w, head, foot, p);
    var q, w1, n := FreedStart(w, p), MergedBack(w, p), Next(w, p);
    assert PrevFits(w, p);
    assert Used(w1) == Used(w) - {p} + {q};
  }

  lemma AbsorbedLive(w: Tiling, head: map<int, int>, foot: map<int, int>, p: int)
    requires Heap(w, head, foot) && p in w.size && p !in w.free && Next(w, p) == w.top
    ensures var q, w1 := FreedStart(w, p), MergedBack(w, p);
            && q in w1.size
            && Heap(Absorb(w1, q), head[q := w1.size[q] + w.topSize + 1], foot)
            && Released(w, Absorb(w1, q), p)
  {
    MergedBackTags(w, head, foot, p);
    var q, w1 := FreedStart(w, p), MergedBack(w, p);
    var head1 := head[q := w1.size[q] + 1];
    AbsorbTags(w1, head1, foot, q);
    assert head1[q := w1.size[q] + w.topSize + 1] == head[q := w1.size[q] + w.topSize + 1];
    assert PrevFits(w, p);
    assert Used(w1) == Used(w) - {p} + {q};
  }
}
