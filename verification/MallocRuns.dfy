/**
 What lib/dlmalloc.c promises its users over whole runs: live blocks never overlap, users
 cannot disturb the allocator by writing inside them, and no byte of the arena is lost.
 */
module MallocRuns {
  import opened MallocSizes
  import opened MallocSums
  import opened MallocTiling
  import opened MallocBins
  import opened MallocArena
  import opened ChunkSums

  /** The bytes a user may write of the chunk at a: everything from mem to the footer word included. */
  function PayloadEnd(w: Tiling, a: int): int
    requires a in w.size
  {
    a + w.size[a] + SIZE_SZ
  }

  /** Two live blocks share no byte, even though each reaches into the prev_size word of its neighbour. */
  lemma LiveBlocksDisjoint(w: Tiling, a: int, c: int)
    requires Tiled(w) && a in Used(w) && c in Used(w) && a != c
    ensures PayloadEnd(w, a) <= c + 2 * SIZE_SZ || PayloadEnd(w, c) <= a + 2 * SIZE_SZ
  {
    if a < c {
      Disjoint(w, a, c);
    } else {
      Disjoint(w, c, a);
    }
  }

  /** Live blocks lie inside the arena. */
  lemma LiveBlockInArena(w: Tiling, a: int)
    requires Tiled(w) && a in Used(w)
    ensures w.base <= a && PayloadEnd(w, a) <= w.top + w.topSize
  {
    assert ChunkFits(w, a);
  }

  /** The word at address x shares a byte with the payload of the chunk at a. */
  predicate InPayload(w: Tiling, a: int, x: int)
    requires a in w.size
  {
    a + 2 * SIZE_SZ < x + SIZE_SZ && x < PayloadEnd(w, a)
  }

  /** Every byte y from 8 bytes into the chunk to 4 bytes into the next is in the payload, and so is each word with it. */
  lemma InPayloadIs(w: Tiling, a: int, x: int, y: int)
    requires a in w.size && x <= y < x + 4 && a + 8 <= y < a + w.size[a] + 4
    ensures InPayload(w, a, x)
  {}

  /**
   A user writes into the payload of a, and nothing else changes in the words that stand off bytes into
   the chunks of m. Chunk addresses are positive; the others stand for the bin headers, which lie elsewhere.
   */
  ghost predicate Spared(w: Tiling, a: int, m: map<int, int>, m': map<int, int>, off: int)
    requires a in w.size
  {
    forall p :: p in m && (p < 0 || !InPayload(w, a, p + off)) ==> p in m' && m'[p] == m[p]
  }

  /** No word of another chunk, of top or of a's own size is in a's payload, but for the footer that a lends the next chunk. */
  lemma OthersSpared(w: Tiling, a: int, c: int)
    requires Tiled(w) && a in Used(w) && c in w.size
    ensures !InPayload(w, a, c + SIZE_SZ) && !InPayload(w, a, w.top + SIZE_SZ)
    ensures c != a ==> !InPayload(w, a, Next(w, c)) && !InPayload(w, a, c + 2 * SIZE_SZ) && !InPayload(w, a, c + 3 * SIZE_SZ)
  {
    assert ChunkFits(w, a) && ChunkFits(w, c);
    if a < c { Disjoint(w, a, c); } else if c < a { Disjoint(w, c, a); }
  }

  /**
   A user overwrites its block at will: any words in the payload may change to anything, among them its fd
   and bk words, the prev_size word of the next chunk, and size words left behind by chunks that were merged;
   the heap and the bins stay well formed.
   */
  lemma UserWritesAreHarmless(w: Tiling, b: Bins, head: map<int, int>, foot: map<int, int>, fd: map<int, int>, bk: map<int, int>,
                              head': map<int, int>, foot': map<int, int>, fd': map<int, int>, bk': map<int, int>, a: int)
    requires Heap(w, head, foot) && Linked(b, fd, bk) && b.slot.Keys == w.free && a in Used(w)
    requires Spared(w, a, head, head', SIZE_SZ) && Spared(w, a, foot, foot', 0)
    requires Spared(w, a, fd, fd', 2 * SIZE_SZ) && Spared(w, a, bk, bk', 3 * SIZE_SZ)
    ensures Heap(w, head', foot') && Linked(b, fd', bk')
  {
    forall c | c in w.size
      ensures TagFits(w, head, foot', c) && (c in head ==> c in head' && head'[c] == head[c])
    {
      assert TagFits(w, head, foot, c);
      OthersSpared(w, a, c);
    }
    OthersSpared(w, a, a);
    StaleHeads(w, head, head', foot');
    SlotsAreChunks(w, w.free);
    forall i | 0 <= i < NAV
      ensures RingAt(b, fd', bk', i)
    {
      assert RingAt(b, fd, bk, i);
      RingSpared(w, b, fd, bk, fd', bk', a, i);
    }
  }

  lemma RingSpared(w: Tiling, b: Bins, fd: map<int, int>, bk: map<int, int>, fd': map<int, int>, bk': map<int, int>, a: int, i: int)
    requires Tiled(w) && Partition(b) && b.slot.Keys == w.free && w.free <= w.size.Keys && a in Used(w)
    requires 0 <= i < NAV && Ring(fd, bk, Header(i), b.lists[i])
    requires Spared(w, a, fd, fd', 2 * SIZE_SZ) && Spared(w, a, bk, bk', 3 * SIZE_SZ)
    ensures Ring(fd', bk', Header(i), b.lists[i])
  {
    forall k {:trigger At(Header(i), b.lists[i], k)} | 0 <= k < |b.lists[i]|
      ensures var c := At(Header(i), b.lists[i], k);
              c in w.size && !InPayload(w, a, c + 2 * SIZE_SZ) && !InPayload(w, a, c + 3 * SIZE_SZ)
    {
      assert Slotted(b, i, k);
      OthersSpared(w, a, b.lists[i][k]);
    }
    RingFrame(fd, bk, fd', bk', Header(i), b.lists[i]);
  }

  // ---------------------------------------------------------------- conservation

  /** The chunks of a tiling fill base..top exactly. */
  lemma {:induction false} ChunksFillArena(w: Tiling)
    requires Tiled(w)
    ensures SumSizes(w.size.Keys, w.size) == w.top - w.base
    decreases w.top - w.base
  {
    assert PrevFits(w, w.top);
    if w.top == w.base {
      assert w.size.Keys == {} by {
        forall a
          ensures a !in w.size
        {
          assert a in w.size ==> ChunkFits(w, a);
        }
      }
    } else {
      var a := w.prev[w.top];
      assert ChunkFits(w, a);
      AbsorbTiled(w, a);
      var w' := Absorb(w, a);
      ChunksFillArena(w');
      SumAdd(w.size.Keys, w.size, a);
      assert w'.size.Keys == w.size.Keys - {a};
      SumFrame(w'.size.Keys, w'.size, w.size);
    }
  }

  /** Live bytes, free bytes and top add up to the arena. */
  lemma BytesAreConserved(w: Tiling, head: map<int, int>, foot: map<int, int>)
    requires Heap(w, head, foot)
    ensures w.free <= w.size.Keys
    ensures SumSizes(Used(w), w.size) + SumSizes(w.free, w.size) + w.topSize == w.top + w.topSize - w.base
  {
    SlotsAreChunks(w, w.free);
    ChunksFillArena(w);
    SumSplit(Used(w), w.free, w.size);
    assert Used(w) + w.free == w.size.Keys;
  }

  /**
   malloc_update_mallinfo walks every bin from last to first.  Its byte count is all free memory, so the
   bytes it reports in use, arena minus available, are exactly those of the live chunks.
   */
  method Mallinfo(h: Arena) returns (avail: int, navail: int)
    requires h.Valid()
    ensures h.w.free <= h.w.size.Keys
    ensures avail == h.w.topSize + SumSizes(h.w.free, h.w.size)
    ensures navail == |h.w.free| + (if h.ready then 1 else 0)
    ensures h.w.top + h.w.topSize - h.w.base - avail == SumSizes(Used(h.w), h.w.size)
  {
    ghost var w, b := h.w, h.b;
    SlotsAreChunks(w, w.free);
    BytesAreConserved(w, h.head, h.foot);
    h.BinnedSizesHold();
    if h.ready { ReadTop(w, h.head, h.foot); }
    avail := h.TopSize();
    navail := if avail >= MINSIZE then 1 else 0;
    NoZeroBin(b, w.size);
    BelowAll(b);
    hide Tiled, Aligned, Tagged, Indexed, Placed, Partition, BinIndex, Coalesced, Below, InBin;
    var i := 1;
    while i < NAV
      invariant 1 <= i <= NAV
      invariant Below(b, i) <= w.free && avail == w.topSize + SumSizes(Below(b, i), w.size)
      invariant navail == |Below(b, i)| + (if h.ready then 1 else 0)
    {
      var got, n := WalkBin(h, i);
      BelowStep(b, i);
      SumSplit(Below(b, i), InBin(b, i), w.size);
      avail, navail := avail + got, navail + n;
      i := i + 1;
    }
  }

  ghost function Below(b: Bins, i: int): set<int> {
    set a | a in b.slot && b.slot[a] < i
  }

  lemma BelowStep(b: Bins, i: int)
    ensures Below(b, i) !! InBin(b, i)
    ensures Below(b, i + 1) == Below(b, i) + InBin(b, i)
  {}

  lemma BelowAll(b: Bins)
    requires forall a :: a in b.slot ==> 1 <= b.slot[a] < NAV
    ensures Below(b, 1) == {} && Below(b, NAV) == b.slot.Keys
  {
    forall a
      ensures a !in Below(b, 1) && (a in Below(b, NAV) <==> a in b.slot.Keys)
    {
      assert a in b.slot ==> 1 <= b.slot[a] < NAV;
    }
  }

  lemma NoZeroBin(b: Bins, size: map<int, int>)
    requires Partition(b) && Placed(b, size)
    ensures forall a :: a in b.slot ==> 1 <= b.slot[a] < NAV
  {
    forall a | a in b.slot
      ensures 1 <= b.slot[a] < NAV
    {
      var i, k := Position(b, a);
      assert PlacedAt(b, size, i, k);
      BinIndexMonotone(size[a], size[a]);
    }
  }

  /** One bin of that walk. */
  method WalkBin(h: Arena, i: int) returns (got: int, n: int)
    requires h.Valid() && h.BinnedSizes() && 0 <= i < NAV && h.w.free <= h.w.size.Keys
    ensures InBin(h.b, i) <= h.w.free && got == SumSizes(InBin(h.b, i), h.w.size) && n == |InBin(h.b, i)|
  {
    hide Heap, Placed, Indexed, InBin, SumSizes, After;
    ghost var w, s := h.w, h.b.lists[i];
    var hd := Header(i);
    HeaderNotHere(h.b, i);
    assert RingAt(h.b, h.fd, h.bk, i);
    assert LinkAt(h.fd, h.bk, hd, s, |s| - 1);
    ghost var k := |s| - 1;
    var p := h.bk[hd];
    got, n := 0, 0;
    TailSet(h.b, i, k);
    SumNone(w.size);
    while p != hd
      invariant -1 <= k < |s| && p == At(hd, s, k)
      invariant After(s, k) <= w.free && got == SumSizes(After(s, k), w.size) && n == |After(s, k)|
      decreases k
    {
      assert Slotted(h.b, i, k) && LinkAt(h.fd, h.bk, hd, s, k - 1);
      AfterStep(s, k);
      SumAdd(After(s, k - 1), w.size, p);
      got := got + (h.head[p] - h.head[p] % 4);
      n := n + 1;
      p := h.bk[p];
      k := k - 1;
    }
    TailSet(h.b, i, -1);
  }

  ghost function InBin(b: Bins, i: int): set<int> {
    set a | a in b.slot && b.slot[a] == i
  }

  ghost function After(s: seq<int>, k: int): set<int>
    requires -1 <= k
  {
    set j | k < j < |s| :: s[j]
  }

  lemma AfterStep(s: seq<int>, k: int)
    requires NoDup(s) && 0 <= k < |s|
    ensures s[k] !in After(s, k) && After(s, k - 1) == After(s, k) + {s[k]}
    ensures After(s, k - 1) - {s[k]} == After(s, k) && |After(s, k - 1)| == |After(s, k)| + 1
  {}

  lemma TailSet(b: Bins, i: int, k: int)
    requires Partition(b) && 0 <= i < NAV && (k == -1 || k == |b.lists[i]| - 1)
    ensures k == -1 ==> After(b.lists[i], k) == InBin(b, i)
    ensures k == |b.lists[i]| - 1 ==> After(b.lists[i], k) == {}
  {
    var s := b.lists[i];
    if k == -1 {
      forall a | a in InBin(b, i)
        ensures a in After(s, k)
      {
        var j, m := Position(b, a);
      }
      forall m | 0 <= m < |s|
        ensures s[m] in InBin(b, i)
      {
        assert Slotted(b, i, m);
      }
    }
  }

  // ---------------------------------------------------------------- whole runs

  /** A user's call. */
  datatype Call =
    | DoMalloc(bytes: nat, env: Sbrk)
    | DoMemalign(alignment: nat, size: nat, sbrk: Sbrk, give: bool)
    | DoFree(mem: int, shrink: bool)
    | DoTrim(pad: nat, release: bool)

  ghost predicate HeldAt(w: Tiling, held: map<int, nat>, m: int) {
    && (m in held <==> m - 2 * SIZE_SZ in Used(w))
    && (m in held ==> m + held[m] <= PayloadEnd(w, m - 2 * SIZE_SZ))
  }

  /** The blocks a user holds, by address and size asked for, are the live chunks, and each holds its request. */
  ghost predicate Held(w: Tiling, held: map<int, nat>) {
    forall m {:trigger HeldAt(w, held, m)} :: HeldAt(w, held, m)
  }

  lemma HeldGrows(w0: Tiling, w1: Tiling, held: map<int, nat>, p: int, nb: int, bytes: nat)
    requires Held(w0, held) && Allocated(w0, w1, p, nb) && bytes + SIZE_SZ <= nb
    ensures Held(w1, held[p + 2 * SIZE_SZ := bytes])
  {
    var held' := held[p + 2 * SIZE_SZ := bytes];
    forall m
      ensures HeldAt(w1, held', m)
    {
      assert HeldAt(w0, held, m);
    }
  }

  lemma HeldStays(w0: Tiling, w1: Tiling, held: map<int, nat>)
    requires Held(w0, held) && SameLive(w0, w1)
    ensures Held(w1, held)
  {
    forall m
      ensures HeldAt(w1, held, m)
    {
      assert HeldAt(w0, held, m);
    }
  }

  lemma HeldShrinks(w0: Tiling, w1: Tiling, held: map<int, nat>, mem: int)
    requires Held(w0, held) && Released(w0, w1, mem - 2 * SIZE_SZ)
    ensures Held(w1, held - {mem})
  {
    var held' := held - {mem};
    forall m
      ensures HeldAt(w1, held', m)
    {
      assert HeldAt(w0, held, m);
    }
  }

  /** Held blocks are aligned and share no byte. */
  ghost predicate Separate(held: map<int, nat>) {
    && (forall m :: m in held ==> m % 8 == 0 && 0 < m)
    && forall m, n :: m in held && n in held && m < n ==> m + held[m] <= n
  }

  lemma HeldSeparate(h: Arena, held: map<int, nat>)
    requires h.Valid() && Held(h.w, held)
    ensures Separate(held)
  {
    forall m | m in held
      ensures m % 8 == 0 && 0 < m
    {
      assert HeldAt(h.w, held, m);
      h.ChunkFacts(m - 2 * SIZE_SZ);
    }
    forall m, n | m in held && n in held && m < n
      ensures m + held[m] <= n
    {
      assert HeldAt(h.w, held, m) && HeldAt(h.w, held, n);
      LiveBlocksDisjoint(h.w, m - 2 * SIZE_SZ, n - 2 * SIZE_SZ);
      h.ChunkFacts(n - 2 * SIZE_SZ);
    }
  }

  /** What a run goes through: the layout, the recorded break and the blocks held. */
  datatype Snapshot = Snapshot(w: Tiling, sbrkBase: int, held: map<int, nat>)

  /** The bytes of a request that its chunk can hold: all of them below the sign bit. */
  function Usable(bytes: nat): nat {
    if bytes + 11 < LONG_MAX then bytes else MINSIZE - SIZE_SZ
  }

  predicate EnvOk(sbrkBase: int, env: Sbrk) {
    0 < env.brk && sbrkBase <= env.brk
  }

  /** Calls that a user may make; others are not made. */
  predicate Proper(topSize: int, sbrkBase: int, held: map<int, nat>, call: Call) {
    match call
    case DoMalloc(bytes, env) => bytes < WORD && EnvOk(sbrkBase, env)
    case DoMemalign(alignment, bytes, env, _) =>
      PowerOfTwo(alignment) && alignment < WORD && bytes < WORD && AlignmentFits(alignment, bytes) && EnvOk(sbrkBase, env)
    case DoFree(mem, _) => mem in held
    case DoTrim(pad, release) => pad < WORD && (topSize != 0 && release ==> TrimSafe(topSize, pad))
  }

  /** A request fails exactly when it is refused, and changes nothing then; else one aligned block is added. */
  ghost predicate Served(pad: nat, s: Snapshot, s': Snapshot, asked: nat, nb: nat, bytes: nat, alignment: nat, env: Sbrk) {
    if Refused(s.w, s.sbrkBase, pad, asked, env) then s'.w == s.w && s'.held == s.held
    else exists mem {:trigger Gains(s, s', mem, nb, bytes, alignment)} :: Gains(s, s', mem, nb, bytes, alignment)
  }

  ghost predicate Gains(s: Snapshot, s': Snapshot, mem: int, nb: nat, bytes: nat, alignment: nat) {
    Allocated(s.w, s'.w, mem - 2 * SIZE_SZ, nb) && MultipleOf(mem, alignment) && s'.held == s.held[mem := Usable(bytes)]
  }

  /** What one call does. */
  ghost predicate Step(pad: nat, s: Snapshot, call: Call, s': Snapshot) {
    && (s.w.topSize != 0 ==> MINSIZE <= s'.w.topSize)
    && if !Proper(s.w.topSize, s.sbrkBase, s.held, call) then s' == s
       else
         match call
         case DoMalloc(bytes, env) => Served(pad, s, s', Request2Size(bytes), Request2Size(bytes), bytes, 8, env)
         case DoMemalign(alignment, bytes, env, _) =>
           Served(pad, s, s', AskedFor(alignment, bytes), Request2Size(bytes), bytes, alignment, env)
         case DoFree(mem, _) => Released(s.w, s'.w, mem - 2 * SIZE_SZ) && s'.held == s.held - {mem}
         case DoTrim(keep, release) =>
           var extra := TrimBytes(s.w.topSize, keep);
           && SameLive(s.w, s'.w) && s'.held == s.held
           && s'.w.topSize == if 4096 <= extra && s.w.topSize != 0 && release then s.w.topSize - extra else s.w.topSize
  }

  /** One call of a user that holds the blocks held. */
  method Perform(h: Arena, call: Call, held: map<int, nat>) returns (held': map<int, nat>)
    requires h.Valid() && Held(h.w, held)
    modifies h
    ensures h.Valid() && Held(h.w, held')
    ensures Step(h.topPad, Snapshot(old(h.w), old(h.sbrkBase), held), call, Snapshot(h.w, h.sbrkBase, held'))
  {
    hide Heap, Linked, Placed, Indexed, Held, Allocated, Released, FitPolicy, SameLive, Request2Size, PowerOfTwo, MultipleOf, Refused, TrimSafe, TrimBytes, AlignmentFits;
    held' := held;
    ghost var w0, s0 := h.w, Snapshot(h.w, h.sbrkBase, held);
    TopSizeIs(h);
    if h.ready { h.TopKeepsMinsize(); }
    if !Proper(h.TopSize(), h.sbrkBase, held, call) { return; }
    match call {
      case DoMalloc(bytes, env) =>
        var mem := h.Malloc(bytes, env);
        held' := Gain(h, w0, held, mem, Request2Size(bytes), bytes);
        if mem != 0 {
          SmallPower(8, mem);
          assert Gains(s0, Snapshot(h.w, h.sbrkBase, held'), mem, Request2Size(bytes), bytes, 8);
        }
      case DoMemalign(alignment, bytes, env, give) =>
        var mem := h.Memalign(alignment, bytes, env, give);
        held' := Gain(h, w0, held, mem, Request2Size(bytes), bytes);
        assert mem != 0 ==> Gains(s0, Snapshot(h.w, h.sbrkBase, held'), mem, Request2Size(bytes), bytes, alignment);
      case DoFree(mem, shrink) =>
        HeldIsLive(h, held, mem);
        h.Free(mem, shrink);
        HeldShrinks(w0, h.w, held, mem);
        held' := held - {mem};
      case DoTrim(pad, release) =>
        var _ := h.Trim(pad, release);
        HeldStays(w0, h.w, held);
    }
    if h.ready { h.TopKeepsMinsize(); }
  }

  lemma TopSizeIs(h: Arena)
    requires h.Valid()
    ensures h.ready ==> h.top in h.head
    ensures h.TopSize() == h.w.topSize && (h.ready <==> h.w.topSize != 0)
  {
    if h.ready { ReadTop(h.w, h.head, h.foot); }
  }

  /** Record the block that a request has returned, if any. */
  method Gain(h: Arena, ghost w0: Tiling, held: map<int, nat>, mem: int, nb: nat, bytes: nat) returns (held': map<int, nat>)
    requires Held(w0, held) && nb == Request2Size(bytes) && bytes < WORD
    requires if mem == 0 then h.w == w0 else Allocated(w0, h.w, mem - 2 * SIZE_SZ, nb)
    ensures Held(h.w, held')
    ensures held' == if mem == 0 then held else held[mem := Usable(bytes)]
  {
    hide Held, Allocated;
    held' := held;
    if mem != 0 {
      PaddedRequest(bytes);
      HeldGrows(w0, h.w, held, mem - 2 * SIZE_SZ, nb, Usable(bytes));
      held' := held[mem := Usable(bytes)];
    }
  }

  lemma HeldIsLive(h: Arena, held: map<int, nat>, m: int)
    requires h.Valid() && Held(h.w, held) && m in held
    ensures m - 2 * SIZE_SZ in Used(h.w) && m != 0
  {
    assert HeldAt(h.w, held, m);
    h.ChunkFacts(m - 2 * SIZE_SZ);
  }

  ghost predicate StepAt(pad: nat, trace: seq<Snapshot>, calls: seq<Call>, i: int) {
    0 <= i < |calls| && i + 1 < |trace| ==> Step(pad, trace[i], calls[i], trace[i + 1])
  }

  /**
   Any run of malloc, memalign, free and trim on a new arena keeps the heap well formed, every call does what
   Step says, and the blocks held at the end are the live chunks: aligned, large enough and pairwise disjoint.
   */
  method Run(pad: nat, threshold: nat, calls: seq<Call>) returns (h: Arena, held: map<int, nat>, ghost trace: seq<Snapshot>)
    requires pad < 0x4000_0000
    ensures h.Valid() && Held(h.w, held) && Separate(held)
    ensures |trace| == |calls| + 1 && trace[0].w.size == map[] && trace[0].held == map[]
    ensures trace[|calls|] == Snapshot(h.w, h.sbrkBase, held)
    ensures forall i {:trigger StepAt(pad, trace, calls, i)} :: StepAt(pad, trace, calls, i)
  {
    h := new Arena(pad, threshold);
    held := map[];
    trace := [Snapshot(h.w, h.sbrkBase, held)];
    NothingHeld(h.w);
    hide Heap, Linked, Placed, Indexed, Held, Step;
    for n := 0 to |calls|
      invariant fresh(h) && h.Valid() && Held(h.w, held) && h.topPad == pad
      invariant |trace| == n + 1 && trace[n] == Snapshot(h.w, h.sbrkBase, held)
      invariant trace[0].w.size == map[] && trace[0].held == map[]
      invariant forall i {:trigger StepAt(pad, trace, calls, i)} :: StepAt(pad, trace, calls, i)
    {
      ghost var was := trace;
      held := Perform(h, calls[n], held);
      trace := trace + [Snapshot(h.w, h.sbrkBase, held)];
      forall i ensures StepAt(pad, trace, calls, i) {
        assert StepAt(pad, was, calls, i);
      }
    }
    HeldSeparate(h, held);
  }

  lemma NothingHeld(w: Tiling)
    requires w.size == map[]
    ensures Held(w, map[])
  {}
}
