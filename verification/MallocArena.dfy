/**
 mALLOc, fREe, malloc_extend_top, malloc_trim and mEMALIGn of lib/dlmalloc.c on the
 words they read and write: size words, footers, list links, binblocks and top.
 */
module MallocArena {
  import opened MallocSizes
  import opened MallocSums
  import opened MallocTiling
  import opened MallocBins

  /** What the system answers to MORECORE: the break at the first call, and whether each call succeeds. */
  datatype Sbrk = Sbrk(brk: int, first: bool, second: bool)

  /** The number of bytes malloc_extend_top asks for: the least whole pages that do, but for the first time. */
  function SbrkSize(sbrkBase: int, topPad: nat, nb: int): (n: int)
    ensures sbrkBase != 0 ==> n % 4096 == 0 && nb + topPad + 16 <= n < nb + topPad + 16 + 4096
    ensures sbrkBase == 0 ==> n == nb + topPad + 16
  {
    RoundedUp(nb + topPad + MINSIZE);
    if sbrkBase != 0 then PageRound(nb + topPad + MINSIZE) else nb + topPad + MINSIZE
  }

  /** The system gives malloc_extend_top all the memory it asks for. */
  ghost predicate Grants(w: Tiling, sbrkBase: int, topPad: nat, nb: int, env: Sbrk) {
    && env.first
    && (if w.topSize != 0 then w.top + w.topSize - sbrkBase else 0) + SbrkSize(sbrkBase, topPad, nb) + 2 * 4096 < LONG_MAX
    && (w.topSize != 0 || env.second)
  }

  /** A padded request fails: no free chunk fits, top is too small, and the system gives no more. */
  ghost predicate Refused(w: Tiling, sbrkBase: int, topPad: nat, nb: int, env: Sbrk) {
    && (forall a :: a in w.free && a in w.size ==> w.size[a] < nb)
    && w.topSize < nb + MINSIZE
    && !Grants(w, sbrkBase, topPad, nb, env)
  }

  /** "We always land on a page boundary" */
  predicate PageEnd(w: Tiling) {
    w.topSize != 0 ==> (w.top + w.topSize) % 4096 == 0
  }

  class Arena {
    // p->size, p->prev_size, p->fd and p->bk by chunk address
    var head: map<int, int>
    var foot: map<int, int>
    var fd: map<int, int>
    var bk: map<int, int>
    var binblocks: bv32
    var top: int
    var ready: bool // top no longer is initial_top
    var sbrkBase: int // sbrk_base; 0 until the first successful MORECORE
    const topPad: nat
    const trimThreshold: nat

    ghost var w: Tiling
    ghost var b: Bins

    ghost predicate BinsOk()
      reads this
    {
      Linked(b, fd, bk) && Placed(b, w.size) && Indexed(b, binblocks)
    }

    ghost predicate Valid()
      reads this
    {
      && top == w.top && (ready <==> w.topSize != 0) && 0 <= sbrkBase && (ready ==> 0 < sbrkBase <= w.base)
      && topPad < 0x4000_0000 && PageEnd(w)
      && Heap(w, head, foot)
      && BinsOk()
      && b.slot.Keys == w.free
    }

    /** chunksize(top); initial_top has size 0 */
    function TopSize(): int
      reads this
      requires ready ==> top in head
    {
      if ready then head[top] - head[top] % 4 else 0
    }

    constructor (pad: nat, threshold: nat)
      requires pad < 0x4000_0000
      ensures Valid() && w.size == map[] && !ready
      ensures topPad == pad && trimThreshold == threshold && binblocks == 0 && sbrkBase == 0
    {
      head, foot := map[], map[];
      fd := map i | 0 <= i < NAV :: Header(i) := Header(i);
      bk := map i | 0 <= i < NAV :: Header(i) := Header(i);
      binblocks := 0;
      top, ready, sbrkBase := 8, false, 0;
      topPad, trimThreshold := pad, threshold;
      w := Tiling(8, 8, 0, map[], map[], {});
      b := Bins(seq(NAV, _ => []), map[]);
      new;
      forall i | 0 <= i < NAV
        ensures RingAt(b, fd, bk, i)
      {
        assert LinkAt(fd, bk, Header(i), b.lists[i], -1);
      }
    }

    // -------------------------------------------------------------- list macros

    /** The macro unlink. */
    method Unlink(p: int)
      requires BinsOk() && p in b.slot
      modifies this`fd, this`bk, this`b
      ensures BinsOk()
      ensures b.slot == old(b.slot) - {p}
      ensures 0 <= old(b.slot)[p] < |old(b.lists)|
      ensures exists k {:trigger Take(old(b), old(b.slot)[p], k)} ::
                0 <= k < |old(b.lists)[old(b.slot)[p]]| && old(b.lists)[old(b.slot)[p]][k] == p && b == Take(old(b), old(b.slot)[p], k)
    {
      ghost var i, k := Position(b, p);
      Unlinks(b, fd, bk, i, k);
      TakePlaced(b, w.size, i, k);
      var bck := bk[p];
      var fwd := fd[p];
      bk := bk[fwd := bck];
      fd := fd[bck := fwd];
      b := Take(b, i, k);
    }

    /** The macro link_last_remainder. */
    method LinkLastRemainder(p: int)
      requires BinsOk() && p !in b.slot && 0 < p && p in w.size && MINSIZE <= w.size[p]
      modifies this`fd, this`bk, this`b
      ensures BinsOk()
      ensures b == Put(if old(b).lists[LAST_REMAINDER] == [] then old(b) else Take(old(b), LAST_REMAINDER, 0), LAST_REMAINDER, 0, p)
    {
      Remainders(b, fd, bk, p);
      var lr := Header(LAST_REMAINDER);
      fd := fd[lr := p];
      bk := bk[lr := p];
      fd := fd[p := lr];
      bk := bk[p := lr];
      if b.lists[LAST_REMAINDER] != [] {
        TakePlaced(b, w.size, LAST_REMAINDER, 0);
        b := Take(b, LAST_REMAINDER, 0);
      }
      PutPlaced(b, w.size, LAST_REMAINDER, 0, p);
      b := Put(b, LAST_REMAINDER, 0, p);
    }

    /** Sizes read from the size words of binned chunks are right and aligned. */
    ghost predicate BinnedSizes()
      reads this
    {
      forall a :: a in b.slot ==> a in w.size && a in head && head[a] - head[a] % 4 == w.size[a] && w.size[a] % 8 == 0
    }

    /** mark_binblock */
    method MarkBinblock(idx: int)
      requires 0 <= idx < NAV && |b.lists| == NAV
      requires Indexed(b, binblocks)
      modifies this`binblocks
      ensures Indexed(b, binblocks) && Marked(binblocks, idx / 4)
    {
      forall j: nat | j < 32
        ensures Marked(With(binblocks, Block(idx / 4)), j) <==> j == idx / 4 || Marked(binblocks, j)
      {
        MarkAndClear(binblocks, idx / 4, j);
      }
      hide Marked, With, Block;
      binblocks := With(binblocks, Block(idx / 4));
    }

    /** while (FD != BK && S < chunksize(FD)) FD = FD->fd */
    method SkipLarger(idx: int, s: int) returns (fwd: int, ghost k: int)
      requires BinsOk() && BinnedSizes() && 0 <= idx < NAV
      ensures 0 <= k <= |b.lists[idx]| && fwd == At(Header(idx), b.lists[idx], k)
      ensures 0 < k ==> b.lists[idx][k - 1] in w.size && s < w.size[b.lists[idx][k - 1]]
      ensures k < |b.lists[idx]| ==> b.lists[idx][k] in w.size && w.size[b.lists[idx][k]] <= s
    {
      var h := Header(idx);
      HeaderNotHere(b, idx);
      assert RingAt(b, fd, bk, idx);
      assert LinkAt(fd, bk, h, b.lists[idx], -1);
      fwd, k := fd[h], 0;
      if k < |b.lists[idx]| { assert Slotted(b, idx, k); }
      while fwd != h && s < head[fwd] - head[fwd] % 4
        invariant 0 <= k <= |b.lists[idx]|
        invariant fwd == At(h, b.lists[idx], k)
        invariant fwd != h ==> fwd in b.slot
        invariant 0 < k ==> b.lists[idx][k - 1] in w.size && s < w.size[b.lists[idx][k - 1]]
        decreases |b.lists[idx]| - k
      {
        assert LinkAt(fd, bk, h, b.lists[idx], k);
        if k + 1 < |b.lists[idx]| { assert Slotted(b, idx, k + 1); }
        fwd := fd[fwd];
        k := k + 1;
      }
    }

    /** Small bins hold chunks of one size. */
    lemma SmallBinSizes(idx: int, s: int)
      requires BinsOk() && BinnedSizes() && MINSIZE <= s < MAX_SMALLBIN_SIZE && s % 8 == 0 && idx == s / 8
      ensures idx == BinIndex(s) && 2 <= idx
      ensures b.lists[idx] != [] ==> b.lists[idx][0] in w.size && w.size[b.lists[idx][0]] == s
    {
      if b.lists[idx] != [] {
        assert PlacedAt(b, w.size, idx, 0) && Slotted(b, idx, 0);
        BinIndexBand(w.size[b.lists[idx][0]]);
      }
    }

    /** The first half of frontlink: mark the block and find the neighbours of a chunk of size s in its bin. */
    method FindSpot(s: int) returns (bck: int, fwd: int, ghost k: int)
      requires BinsOk() && BinnedSizes() && MINSIZE <= s && s % 8 == 0
      modifies this`binblocks
      ensures BinsOk() && 2 <= BinIndex(s) < NAV && Marked(binblocks, BinIndex(s) / 4)
      ensures 0 <= k <= |b.lists[BinIndex(s)]|
      ensures bck == At(Header(BinIndex(s)), b.lists[BinIndex(s)], k - 1)
      ensures fwd == At(Header(BinIndex(s)), b.lists[BinIndex(s)], k)
      ensures 0 < k ==> b.lists[BinIndex(s)][k - 1] in w.size && s < w.size[b.lists[BinIndex(s)][k - 1]]
      ensures k < |b.lists[BinIndex(s)]| ==> b.lists[BinIndex(s)][k] in w.size && w.size[b.lists[BinIndex(s)][k]] <= s
    {
      hide Marked, With, Block;
      BinIndexMonotone(s, s);
      var idx := if s < MAX_SMALLBIN_SIZE then s / 8 else BinIndex(s);
      var h := Header(idx);
      assert RingAt(b, fd, bk, idx);
      assert LinkAt(fd, bk, h, b.lists[idx], -1);
      bck, fwd, k := h, fd[h], 0;
      if s < MAX_SMALLBIN_SIZE {
        SmallBinSizes(idx, s);
        MarkBinblock(idx);
      } else {
        HeaderNotHere(b, idx);
        if fwd == bck {
          MarkBinblock(idx);
        } else {
          fwd, k := SkipLarger(idx, s);
          assert LinkAt(fd, bk, h, b.lists[idx], k - 1);
          bck := bk[fwd];
        }
      }
    }

    /** The chunks before place k of a bin are larger than s, the others are not. */
    ghost predicate FirstNotLarger(i: int, k: int, s: int)
      requires 0 <= i < |b.lists| && 0 <= k <= |b.lists[i]|
      reads this
    {
      forall j :: 0 <= j < |b.lists[i]| ==> b.lists[i][j] in w.size && (j < k <==> s < w.size[b.lists[i][j]])
    }

    lemma SpotIsFirst(i: int, k: int, s: int)
      requires BinsOk() && 0 <= i < NAV && 0 <= k <= |b.lists[i]|
      requires 0 < k ==> b.lists[i][k - 1] in w.size && s < w.size[b.lists[i][k - 1]]
      requires k < |b.lists[i]| ==> b.lists[i][k] in w.size && w.size[b.lists[i][k]] <= s
      ensures FirstNotLarger(i, k, s)
    {
      forall j | 0 <= j < |b.lists[i]| ensures b.lists[i][j] in w.size && (j < k <==> s < w.size[b.lists[i][j]]) {
        if j < k { SizesFall(b, w.size, i, j, k - 1); } else { SizesFall(b, w.size, i, k, j); }
      }
    }

    /** The macro frontlink: p goes first among the chunks of its bin that are not larger. */
    method Frontlink(p: int, s: int)
      requires BinsOk() && BinnedSizes()
      requires p !in b.slot && 0 < p && p in w.size && MINSIZE <= w.size[p] == s && s % 8 == 0
      modifies this`fd, this`bk, this`b, this`binblocks
      ensures BinsOk()
      ensures exists k {:trigger Put(old(b), BinIndex(s), k, p)} ::
                && 0 <= k <= |old(b.lists)[BinIndex(s)]| && b == Put(old(b), BinIndex(s), k, p)
                && old(FirstNotLarger(BinIndex(s), k, s))
    {
      hide Marked;
      var bck, fwd;
      ghost var k;
      bck, fwd, k := FindSpot(s);
      SpotIsFirst(BinIndex(s), k, s);
      Links(b, fd, bk, BinIndex(s), k, p);
      PutPlaced(b, w.size, BinIndex(s), k, p);
      bk := bk[p := bck];
      fd := fd[p := fwd];
      fd := fd[bck := p];
      bk := bk[fwd := p];
      b := Put(b, BinIndex(s), k, p);
    }

    // -------------------------------------------------------------- searching the bins

    /**
     for (victim = last(bin); victim != bin; victim = victim->bk): the first chunk from the
     back with room for nb, which is a smallest one of the bin, or the header if there is none.
     */
    method FindInBin(i: int, nb: int) returns (victim: int)
      requires BinsOk() && BinnedSizes() && 0 <= i < NAV
      ensures victim == Header(i) <==> !HasFit(b, w.size, i, nb)
      ensures victim != Header(i) ==> victim in b.slot && b.slot[victim] == i && victim in w.size && nb <= w.size[victim]
      ensures victim != Header(i) ==>
                forall k :: 0 <= k < |b.lists[i]| && b.lists[i][k] in w.size && nb <= w.size[b.lists[i][k]]
                            ==> w.size[victim] <= w.size[b.lists[i][k]]
    {
      var h := Header(i);
      ghost var s := b.lists[i];
      ghost var k := |s| - 1;
      assert RingAt(b, fd, bk, i);
      HeaderNotHere(b, i);
      assert LinkAt(fd, bk, h, s, |s| - 1);
      victim := bk[h];
      while victim != h
        invariant -1 <= k < |s| && victim == At(h, s, k)
        invariant forall j :: k < j < |s| ==> s[j] in w.size && w.size[s[j]] < nb
        decreases k
      {
        assert Slotted(b, i, k) && LinkAt(fd, bk, h, s, k - 1);
        if head[victim] - head[victim] % 4 - nb >= 0 {
          forall j | 0 <= j < |s| && s[j] in w.size && nb <= w.size[s[j]]
            ensures w.size[victim] <= w.size[s[j]]
          {
            if j <= k { SizesFall(b, w.size, i, j, k); }
          }
          assert HasFit(b, w.size, i, nb);
          return;
        }
        victim := bk[victim];
        k := k - 1;
      }
    }

    /** No bit of binblocks from block k on. */
    lemma EmptyAbove(k: int)
      requires 0 < k < 32 && Indexed(b, binblocks) && !Reaches(binblocks, Block(k))
      ensures forall i :: k * 4 <= i < NAV ==> b.lists[i] == []
    {
      NoBlockAbove(binblocks, k);
    }

    /** The loop that shifts block until it meets a set bit of binblocks. */
    method SkipBlocks(idx0: int, block0: bv32) returns (idx: int, block: bv32)
      requires 4 <= idx0 < NAV && idx0 % 4 == 0 && block0 == Block(idx0 / 4)
      requires Reaches(binblocks, block0) && Indexed(b, binblocks) && |b.lists| == NAV
      ensures idx0 <= idx < NAV && idx % 4 == 0 && block == Block(idx / 4)
      ensures forall i :: idx0 <= i < idx ==> b.lists[i] == []
    {
      hide Block, Has, Indexed, Marked, Reaches, Up;
      idx, block := idx0, block0;
      while !Has(binblocks, block)
        invariant idx0 <= idx < NAV && idx % 4 == 0
        invariant block == Block(idx / 4) && Reaches(binblocks, block)
        invariant |b.lists| == NAV && forall i :: idx0 <= i < idx ==> b.lists[i] == []
        decreases NAV - idx
      {
        ghost var k := idx / 4;
        PassBlock(binblocks, k);
        UnmarkedIsEmpty(b, binblocks, k);
        idx := idx + 4;
        block := Up(block);
      }
    }
  
    /** The do-loop over the bins of one block, from startidx to the end of its block. */
    method ScanBlock(startidx: int, nb: int) returns (victim: int, idx: int)
      requires BinsOk() && BinnedSizes() && 4 <= startidx < NAV
      requires forall i :: startidx <= i < NAV && b.lists[i] != [] ==> HasFit(b, w.size, i, nb)
      ensures startidx <= idx <= startidx / 4 * 4 + 4
      ensures forall i :: startidx <= i < idx ==> b.lists[i] == []
      ensures victim == 0 ==> idx == startidx / 4 * 4 + 4
      ensures victim != 0 ==> idx < NAV && BestFrom(b, w.size, startidx, nb, victim)
    {
      idx := startidx;
      var more := true;
      while more
        invariant startidx <= idx <= startidx / 4 * 4 + 4
        invariant more <==> idx < startidx / 4 * 4 + 4
        invariant forall i :: startidx <= i < idx ==> b.lists[i] == []
        decreases NAV - idx
      {
        victim := FindInBin(idx, nb);
        if victim != Header(idx) {
          FirstFitIsBest(startidx, idx, nb, victim);
          ghost var i, k := Position(b, victim);
          assert Slotted(b, i, k);
          return;
        }
        idx := idx + 1;
        more := idx % 4 != 0;
      }
      victim := 0;
    }

    /** Larger bins hold larger chunks, so a best fit of the first non-empty bin is a best fit of all. */
    lemma FirstFitIsBest(lo: int, i: int, nb: int, victim: int)
      requires BinsOk() && 2 <= lo <= i < NAV
      requires forall j :: lo <= j < i ==> b.lists[j] == []
      requires victim in b.slot && b.slot[victim] == i && victim in w.size && nb <= w.size[victim]
      requires forall k :: 0 <= k < |b.lists[i]| && b.lists[i][k] in w.size && nb <= w.size[b.lists[i][k]]
                           ==> w.size[victim] <= w.size[b.lists[i][k]]
      ensures BestFrom(b, w.size, lo, nb, victim)
    {
      var i', k' := Position(b, victim);
      assert PlacedAt(b, w.size, i, k');
      forall a | a in b.slot && a in w.size && lo <= b.slot[a] && nb <= w.size[a]
        ensures w.size[victim] <= w.size[a]
      {
        var j, k := Position(b, a);
        assert PlacedAt(b, w.size, j, k);
        if w.size[a] < w.size[victim] { BinIndexMonotone(w.size[a], w.size[victim]); }
      }
    }

    /** The backtracking loop that clears the bit of a block found empty. */
    method ClearEmptyBlock(start: int, block: bv32)
      requires Linked(b, fd, bk) && Indexed(b, binblocks) && 4 <= start < NAV && block == Block(start / 4)
      requires forall i :: start <= i < start / 4 * 4 + 4 ==> b.lists[i] == []
      modifies this`binblocks
      ensures Indexed(b, binblocks)
      ensures var k := start / 4;
              var empty := b.lists[4 * k] == [] && b.lists[4 * k + 1] == [] && b.lists[4 * k + 2] == [] && b.lists[4 * k + 3] == [];
              binblocks == if empty then Without(old(binblocks), block) else old(binblocks)
    {
      var startidx := start;
      ghost var k := start / 4;
      var going := true;
      while going
        invariant k * 4 <= startidx <= start
        invariant Indexed(b, binblocks)
        invariant going ==> forall i :: startidx <= i < k * 4 + 4 ==> b.lists[i] == []
        invariant going ==> binblocks == old(binblocks)
        invariant !going ==>
                    if binblocks == old(binblocks) && b.lists[startidx] != [] then true
                    else binblocks == Without(old(binblocks), block) && forall i :: k * 4 <= i < k * 4 + 4 ==> b.lists[i] == []
        decreases going, startidx
      {
        if startidx % 4 == 0 {
          ClearedIsIndexed(b, binblocks, k);
          binblocks := Without(binblocks, block);
          going := false;
        } else {
          startidx := startidx - 1;
          assert RingAt(b, fd, bk, startidx);
          assert LinkAt(fd, bk, Header(startidx), b.lists[startidx], -1);
          HeaderNotHere(b, startidx);
          going := fd[Header(startidx)] == Header(startidx);
        }
      }
    }

    /**
     The whole bin scan of mALLOc from bin idx0 on: a smallest chunk that fits, or 0 when none does.
     Blocks found empty on the way lose their bit, and binblocks still covers every non-empty bin.
     */
    method ScanBins(idx0: int, nb: int) returns (victim: int)
      requires BinsOk() && BinnedSizes() && 4 <= idx0 < NAV
      requires forall i :: idx0 <= i < NAV && b.lists[i] != [] ==> HasFit(b, w.size, i, nb)
      modifies this`binblocks
      ensures BinsOk()
      ensures victim == 0 ==> NoneFrom(b, w.size, idx0, nb)
      ensures victim != 0 ==> BestFrom(b, w.size, idx0, nb, victim)
    {
      hide Block, Has, Reaches, Up, Without, Marked, Indexed;
      var idx := idx0;
      victim := 0;
      var block := Block(idx / 4);
      if Reaches(binblocks, block) {
        if !Has(binblocks, block) {
          PassBlock(binblocks, idx / 4);
          UnmarkedIsEmpty(b, binblocks, idx / 4);
          idx := idx / 4 * 4 + 4;
          block := Up(block);
          idx, block := SkipBlocks(idx, block);
        }
        var going := true;
        while going
          invariant BinsOk() && idx0 <= idx <= NAV
          invariant forall i :: idx0 <= i < idx ==> b.lists[i] == []
          invariant going ==> idx < NAV && block == Block(idx / 4)
          invariant !going ==> victim == 0 && NoneFrom(b, w.size, idx0, nb)
          decreases going, NAV - idx
        {
          var startidx := idx;
          victim, idx := ScanBlock(startidx, nb);
          if victim != 0 {
            BestOfRest(idx0, startidx, nb, victim);
            return;
          }
          ClearEmptyBlock(startidx, block);
          UpBlock(startidx / 4);
          block := Up(block);
          if Reaches(binblocks, block) && block != 0 {
            idx, block := SkipBlocks(idx, block);
          } else {
            if block != 0 { EmptyAbove(idx / 4); }
            AllEmpty(idx0, nb);
            going := false;
          }
        }
      } else {
        EmptyAbove(idx / 4);
        AllEmpty(idx0, nb);
      }
    }

    lemma BestOfRest(lo: int, mid: int, nb: int, victim: int)
      requires Partition(b) && 0 <= lo <= mid <= NAV && (forall i :: lo <= i < mid ==> b.lists[i] == [])
      requires BestFrom(b, w.size, mid, nb, victim)
      ensures BestFrom(b, w.size, lo, nb, victim)
    {
      forall a | a in b.slot
        ensures lo <= b.slot[a] ==> mid <= b.slot[a]
      {
        var i, k := Position(b, a);
      }
    }

    lemma AllEmpty(lo: int, nb: int)
      requires Partition(b) && 0 <= lo <= NAV && (forall i :: lo <= i < NAV ==> b.lists[i] == [])
      ensures NoneFrom(b, w.size, lo, nb)
    {
      forall a | a in b.slot
        ensures b.slot[a] < lo
      {
        var i, k := Position(b, a);
      }
    }

    // -------------------------------------------------------------- taking a chunk

    /** Sizes of binned chunks read from their size words are right. */
    lemma BinnedSizesHold()
      requires Valid()
      ensures BinnedSizes()
    {
      BinnedSizesOf(w, head, foot, b.slot.Keys);
    }

    lemma ChunkFacts(a: int)
      requires Valid() && a in w.size
      ensures 0 < a && a % 8 == 0 && w.size[a] % 8 == 0 && MINSIZE <= w.size[a]
    {
      assert ChunkFits(w, a) && AlignedAt(w, a);
    }

    /** unlink and set_inuse_bit_at_offset: the whole chunk is taken. */
    method TakeChunk(victim: int)
      requires Valid() && victim in w.free
      modifies this`head, this`fd, this`bk, this`b, this`w
      ensures Valid()
      ensures w == old(w).(free := old(w.free) - {victim})
    {
      assert StandsAlone(w, victim);
      ReadTags(w, head, foot, victim);
      TakeWhole(w, head, foot, victim);
      var victimSize := head[victim] - head[victim] % 4;
      Unlink(victim);
      head := head[victim + victimSize := head[victim + victimSize] + 1];
      w := w.(free := w.free - {victim});
    }

    /** Cut nb bytes off a binned chunk; the rest becomes the last remainder, which must be empty. */
    method SplitChunk(victim: int, nb: int)
      requires Valid() && victim in w.free && victim in w.size
      requires b.lists[LAST_REMAINDER] == []
      requires MINSIZE <= nb <= w.size[victim] - MINSIZE && nb % 8 == 0
      modifies this`head, this`foot, this`fd, this`bk, this`b, this`w
      ensures Valid()
      ensures w == SplitFree(old(w), victim, nb)
      ensures victim + nb !in old(w.size)
    {
      hide Tiled, Aligned, Tagged, Indexed, Placed, Partition, BinIndex;
      ReadTags(w, head, foot, victim);
      TakeSplit(w, head, foot, victim, nb);
      ChunkFacts(victim);
      var remainderSize := head[victim] - head[victim] % 4 - nb;
      var remainder := victim + nb;
      head := head[victim := nb + 1];
      Unlink(victim);
      ghost var w' := SplitFree(w, victim, nb);
      assert Coalesced(w);
      SlotsAreChunks(w, b.slot.Keys);
      PlacedFrame(b, w.size, w'.size);
      w := w';
      LinkLastRemainder(remainder);
      head := head[remainder := remainderSize + 1];
      foot := foot[remainder + remainderSize := remainderSize];
    }

    /** Re-split the last remainder: its rest replaces it. */
    method ResplitRemainder(victim: int, nb: int)
      requires Valid() && victim in w.free && victim in w.size && b.slot[victim] == LAST_REMAINDER
      requires MINSIZE <= nb <= w.size[victim] - MINSIZE && nb % 8 == 0
      modifies this`head, this`foot, this`fd, this`bk, this`b, this`w
      ensures Valid()
      ensures w == SplitFree(old(w), victim, nb)
      ensures victim + nb !in old(w.size)
    {
      hide Tiled, Aligned, Tagged, Indexed, Placed, Partition, BinIndex;
      ReadTags(w, head, foot, victim);
      TakeSplit(w, head, foot, victim, nb);
      ChunkFacts(victim);
      SlotsAreChunks(w, b.slot.Keys);
      ghost var i, k := Position(b, victim);
      ghost var w' := SplitFree(w, victim, nb);
      PlacedResize(b, w.size, w'.size, victim);
      var remainderSize := head[victim] - head[victim] % 4 - nb;
      var remainder := victim + nb;
      head := head[victim := nb + 1];
      w := w';
      LinkLastRemainder(remainder);
      head := head[remainder := remainderSize + 1];
      foot := foot[remainder + remainderSize := remainderSize];
    }

    /** clear_last_remainder */
    method ClearLastRemainder()
      requires BinsOk() && |b.lists[LAST_REMAINDER]| == 1
      modifies this`fd, this`bk, this`b
      ensures BinsOk() && b == Take(old(b), LAST_REMAINDER, 0)
    {
      Unlinks(b, fd, bk, LAST_REMAINDER, 0);
      TakePlaced(b, w.size, LAST_REMAINDER, 0);
      var lr := Header(LAST_REMAINDER);
      fd := fd[lr := lr];
      bk := bk[lr := lr];
      b := Take(b, LAST_REMAINDER, 0);
    }

    /** A last remainder that is almost of size nb is taken whole. */
    method ExhaustRemainder(victim: int)
      requires Valid() && victim in w.free && b.slot[victim] == LAST_REMAINDER
      modifies this`head, this`fd, this`bk, this`b, this`w
      ensures Valid()
      ensures w == old(w).(free := old(w.free) - {victim})
    {
      assert StandsAlone(w, victim);
      ReadTags(w, head, foot, victim);
      TakeWhole(w, head, foot, victim);
      ghost var i, k := Position(b, victim);
      var victimSize := head[victim] - head[victim] % 4;
      ClearLastRemainder();
      head := head[victim + victimSize := head[victim + victimSize] + 1];
      w := w.(free := w.free - {victim});
    }

    /** A last remainder that is too small goes to its ordinary bin. */
    method RebinRemainder(victim: int)
      requires Valid() && victim in w.free && victim in w.size && b.slot[victim] == LAST_REMAINDER
      modifies this`fd, this`bk, this`b, this`binblocks
      ensures Valid() && b.lists[LAST_REMAINDER] == []
      ensures MINSIZE <= w.size[victim] && b.slot == old(b.slot)[victim := BinIndex(w.size[victim])]
      ensures 2 <= BinIndex(w.size[victim]) < NAV
      ensures forall i :: 2 <= i < NAV && i != BinIndex(w.size[victim]) ==> b.lists[i] == old(b.lists)[i]
      ensures forall a :: a in old(b.lists)[BinIndex(w.size[victim])] ==> a in b.lists[BinIndex(w.size[victim])]
    {
      ChunkFacts(victim);
      BinnedSizesHold();
      ReadTags(w, head, foot, victim);
      BinIndexMonotone(w.size[victim], w.size[victim]);
      ghost var i, k := Position(b, victim);
      ghost var idx := BinIndex(w.size[victim]);
      var victimSize := head[victim] - head[victim] % 4;
      ClearLastRemainder();
      ghost var s := b.lists[idx];
      Frontlink(victim, victimSize);
      forall a | a in s
        ensures a in b.lists[idx]
      {
        var m :| 0 <= m < |s| && s[m] == a;
        assert b.lists[idx][m] == a || b.lists[idx][m + 1] == a;
      }
    }

    // -------------------------------------------------------------- the stages of mALLOc

    lemma LaterBinsFit(i: int, nb: int)
      requires BinsOk() && 2 <= i < NAV && MINSIZE <= nb && BinIndex(nb) < i && b.lists[i] != []
      ensures HasFit(b, w.size, i, nb)
    {
      assert PlacedAt(b, w.size, i, 0);
      if w.size[b.lists[i][0]] < nb { BinIndexMonotone(w.size[b.lists[i][0]], nb); }
      assert b.lists[i][0] in w.size && nb <= w.size[b.lists[i][0]];
    }

    lemma EarlierBinsDoNot(a: int, nb: int)
      requires BinsOk() && a in b.slot && a in w.size && MINSIZE <= nb && 2 <= b.slot[a] < BinIndex(nb)
      ensures w.size[a] < nb
    {
      var i, k := Position(b, a);
      assert PlacedAt(b, w.size, i, k);
      if nb <= w.size[a] { BinIndexMonotone(nb, w.size[a]); }
    }

    /** Stage 1 of mALLOc: look for an exact fit (within MINSIZE) in the bin of nb. */
    method ExactFit(nb: int) returns (victim: int, idx: int)
      requires Valid() && MINSIZE <= nb && nb % 8 == 0
      ensures victim != 0 ==> BestFrom(b, w.size, 2, nb, victim) && w.size[victim] < nb + MINSIZE
      ensures victim == 0 ==> ReadyToScan(b, w.size, idx, nb)
      ensures victim == 0 ==> forall a :: a in b.slot && a in w.size && 2 <= b.slot[a] ==> w.size[a] != nb
    {
      BinnedSizesHold();
      BinIndexMonotone(nb, nb);
      if nb < MAX_SMALLBIN_SIZE - SMALLBIN_WIDTH {
        idx := nb / 8;
        victim := LastOf(idx);
        if victim == Header(idx) {
          victim := LastOf(idx + 1);
          if victim != Header(idx + 1) {
            SmallFit(idx + 1, nb, victim);
            return;
          }
        } else {
          SmallFit(idx, nb, victim);
          return;
        }
        SmallMiss(idx, nb);
        victim, idx := 0, idx + 2;
      } else {
        idx := BinIndex(nb);
        victim := FindInBin(idx, nb);
        if victim != Header(idx) {
          LargeFit(idx, nb, victim);
          if head[victim] - head[victim] % 4 - nb < MINSIZE {
            return;
          }
          LargeRescan(idx, nb, victim);
          victim := 0;
        } else {
          LargeMiss(idx, nb);
          victim, idx := 0, idx + 1;
        }
      }
    }

    /** last(bin_at(i)) */
    method LastOf(i: int) returns (victim: int)
      requires Linked(b, fd, bk) && 0 <= i < NAV
      ensures victim == At(Header(i), b.lists[i], |b.lists[i]| - 1)
      ensures victim == Header(i) <==> b.lists[i] == []
      ensures victim != Header(i) ==> 0 < victim && victim in b.slot && b.slot[victim] == i
    {
      assert RingAt(b, fd, bk, i);
      assert LinkAt(fd, bk, Header(i), b.lists[i], |b.lists[i]| - 1);
      HeaderNotHere(b, i);
      if b.lists[i] != [] { assert Slotted(b, i, |b.lists[i]| - 1); }
      victim := bk[Header(i)];
    }

    /** first(bin_at(i)) */
    method FirstOf(i: int) returns (victim: int)
      requires Linked(b, fd, bk) && 0 <= i < NAV
      ensures victim == At(Header(i), b.lists[i], 0)
      ensures victim == Header(i) <==> b.lists[i] == []
      ensures victim != Header(i) ==> 0 < victim && victim in b.slot && b.slot[victim] == i
    {
      assert RingAt(b, fd, bk, i);
      assert LinkAt(fd, bk, Header(i), b.lists[i], -1);
      HeaderNotHere(b, i);
      if b.lists[i] != [] { assert Slotted(b, i, 0); }
      victim := fd[Header(i)];
    }

    /** A chunk in the small bin of nb or the next one is an exact fit. */
    lemma SmallFit(i: int, nb: int, victim: int)
      requires BinsOk() && BinnedSizes() && MINSIZE <= nb < MAX_SMALLBIN_SIZE - SMALLBIN_WIDTH && nb % 8 == 0
      requires i == nb / 8 || (i == nb / 8 + 1 && b.lists[nb / 8] == [])
      requires victim in b.slot && b.slot[victim] == i
      ensures BestFrom(b, w.size, 2, nb, victim) && w.size[victim] < nb + MINSIZE
    {
      var i', k := Position(b, victim);
      assert PlacedAt(b, w.size, i, k);
      BinIndexBand(w.size[victim]);
      forall a | a in b.slot && a in w.size && 2 <= b.slot[a] && nb <= w.size[a]
        ensures w.size[victim] <= w.size[a]
      {
        var j, m := Position(b, a);
        assert PlacedAt(b, w.size, j, m);
      }
    }

    lemma SmallMiss(i: int, nb: int)
      requires BinsOk() && BinnedSizes() && MINSIZE <= nb < MAX_SMALLBIN_SIZE - SMALLBIN_WIDTH && nb % 8 == 0
      requires i == nb / 8 && b.lists[i] == [] && b.lists[i + 1] == []
      ensures ReadyToScan(b, w.size, i + 2, nb)
      ensures forall a :: a in b.slot && a in w.size && 2 <= b.slot[a] ==> w.size[a] != nb
    {
      forall a | a in b.slot && a in w.size && 2 <= b.slot[a]
        ensures w.size[a] != nb && (b.slot[a] < i + 2 ==> w.size[a] < nb)
      {
        var j, m := Position(b, a);
        assert PlacedAt(b, w.size, j, m);
        BinIndexBand(w.size[a]);
        if j < i { EarlierBinsDoNot(a, nb); }
      }
    }

    lemma LargeFit(i: int, nb: int, victim: int)
      requires BinsOk() && BinnedSizes() && MINSIZE <= nb && i == BinIndex(nb) && 2 <= i < NAV
      requires victim in b.slot && b.slot[victim] == i && victim in w.size && nb <= w.size[victim]
      requires forall k :: 0 <= k < |b.lists[i]| && b.lists[i][k] in w.size && nb <= w.size[b.lists[i][k]]
                           ==> w.size[victim] <= w.size[b.lists[i][k]]
      ensures BestFrom(b, w.size, 2, nb, victim) && 0 < victim
    {
      var i', k' := Position(b, victim);
      assert PlacedAt(b, w.size, i, k') && Slotted(b, i, k');
      forall a | a in b.slot && a in w.size && 2 <= b.slot[a] && nb <= w.size[a]
        ensures w.size[victim] <= w.size[a]
      {
        var j, m := Position(b, a);
        assert PlacedAt(b, w.size, j, m);
        if j < i { EarlierBinsDoNot(a, nb); }
        if w.size[a] < w.size[victim] { BinIndexMonotone(w.size[a], w.size[victim]); }
      }
    }

    lemma LargeRescan(i: int, nb: int, victim: int)
      requires BinsOk() && MAX_SMALLBIN_SIZE - SMALLBIN_WIDTH <= nb && i == BinIndex(nb) && i < NAV
      requires BestFrom(b, w.size, 2, nb, victim) && b.slot[victim] == i && nb < w.size[victim]
      ensures ReadyToScan(b, w.size, i, nb)
      ensures forall a :: a in b.slot && a in w.size && 2 <= b.slot[a] ==> w.size[a] != nb
    {
      BinIndexBand(nb);
      var i', k := Position(b, victim);
      assert HasFit(b, w.size, i, nb);
      forall a | a in b.slot && a in w.size && 2 <= b.slot[a] < i
        ensures w.size[a] < nb
      {
        EarlierBinsDoNot(a, nb);
      }
    }

    lemma LargeMiss(i: int, nb: int)
      requires BinsOk() && MAX_SMALLBIN_SIZE - SMALLBIN_WIDTH <= nb && i == BinIndex(nb) && i < NAV && !HasFit(b, w.size, i, nb)
      ensures ReadyToScan(b, w.size, i + 1, nb)
      ensures forall a :: a in b.slot && a in w.size && 2 <= b.slot[a] ==> w.size[a] != nb
    {
      BinIndexBand(nb);
      forall a | a in b.slot && a in w.size && 2 <= b.slot[a]
        ensures w.size[a] != nb && (b.slot[a] < i + 1 ==> w.size[a] < nb)
      {
        var j, m := Position(b, a);
        assert PlacedAt(b, w.size, j, m);
        if j < i { EarlierBinsDoNot(a, nb); }
      }
      BinIndexMonotone(nb, nb);
    }

    /** Stage 2: the last remainder.  Returns 0 when it cannot serve; it then has moved to its bin. */
    method UseRemainder(nb: int, ghost idx: int) returns (victim: int)
      requires Valid() && MINSIZE <= nb && nb % 8 == 0 && ReadyToScan(b, w.size, idx, nb)
      modifies this`head, this`foot, this`fd, this`bk, this`b, this`w, this`binblocks
      ensures Valid()
      ensures victim != 0 ==> Allocated(old(w), w, victim, nb) && victim in old(b.slot) && old(b.slot)[victim] == LAST_REMAINDER
      ensures victim != 0 ==> victim in old(w.size) && nb <= old(w.size)[victim] && ready == old(ready)
      ensures victim == 0 ==> w == old(w) && b.lists[LAST_REMAINDER] == [] && ReadyToScan(b, w.size, idx, nb)
      ensures victim == 0 ==> forall a :: a in b.slot && a in w.size && nb <= w.size[a] ==> old(b.slot)[a] == b.slot[a]
    {
      victim := FirstOf(LAST_REMAINDER);
      if victim == Header(LAST_REMAINDER) {
        return 0;
      }
      assert StandsAlone(w, victim);
      ReadTags(w, head, foot, victim);
      ChunkFacts(victim);
      var remainderSize := head[victim] - head[victim] % 4 - nb;
      if remainderSize >= MINSIZE {
        SplitAllocates(w, victim, nb);
        ResplitRemainder(victim, nb);
      } else if remainderSize >= 0 {
        WholeAllocates(w, victim, nb);
        ExhaustRemainder(victim);
      } else {
        RebinRemainder(victim);
        RebinKeepsScan(old(b), idx, nb, victim);
        victim := 0;
      }
    }

    lemma RebinKeepsScan(b0: Bins, idx: int, nb: int, victim: int)
      requires |b0.lists| == NAV && MINSIZE <= nb && ReadyToScan(b0, w.size, idx, nb)
      requires Valid() && victim in w.size && MINSIZE <= w.size[victim] < nb
      requires 2 <= BinIndex(w.size[victim]) < NAV
      requires b.slot == b0.slot[victim := BinIndex(w.size[victim])]
      requires forall i :: 2 <= i < NAV && i != BinIndex(w.size[victim]) ==> b.lists[i] == b0.lists[i]
      requires forall a :: a in b0.lists[BinIndex(w.size[victim])] ==> a in b.lists[BinIndex(w.size[victim])]
      ensures ReadyToScan(b, w.size, idx, nb)
    {
      if BinIndex(nb) == idx {
        var k :| 0 <= k < |b0.lists[idx]| && b0.lists[idx][k] in w.size && nb <= w.size[b0.lists[idx][k]];
        var a := b0.lists[idx][k];
        assert a in b.lists[idx];
        var k' :| 0 <= k' < |b.lists[idx]| && b.lists[idx][k'] == a;
      }
    }

    /**
     malloc_extend_top; MORECORE fails rather than let the arena reach 2^31 bytes, and is never called by others.
     Top grows exactly when the system grants the memory, and then has room for the request.
     */
    method ExtendTop(nb: int, env: Sbrk)
      requires Valid() && MINSIZE <= nb < LONG_MAX && nb % 8 == 0 && 0 < env.brk && sbrkBase <= env.brk
      modifies this`head, this`top, this`ready, this`sbrkBase, this`w
      ensures Valid() && (old(ready) ==> ready)
      ensures w.size == old(w.size) && w.free == old(w.free)
      ensures old(ready) ==> w.base == old(w.base) && w.top == old(w.top) && sbrkBase == old(sbrkBase)
      ensures !Grants(old(w), old(sbrkBase), topPad, nb, env) ==> w == old(w)
      ensures Grants(old(w), old(sbrkBase), topPad, nb, env) ==>
                && ready && nb + MINSIZE <= w.topSize && (w.top + w.topSize) % 4096 == 0
                && if old(ready) then
                     var g := w.topSize - old(w.topSize);
                     g % 4096 == 0 && nb + topPad + 16 <= g < nb + topPad + 16 + 4096
                   else
                     var n := SbrkSize(old(sbrkBase), topPad, nb);
                     && w.top % 8 == 0 && env.brk <= w.top < env.brk + 8
                     && w.top + n < w.top + w.topSize <= w.top + n + 4096
                     && sbrkBase == if old(sbrkBase) != 0 then old(sbrkBase) else env.brk
    {
      hide Tiled, Aligned, Coalesced, Tagged, PageRound, Linked, Placed, Indexed, SbrkSize;
      if ready { ReadTop(w, head, foot); }
      var oldTopSize := TopSize();
      var sbrkSize := SbrkSize(sbrkBase, topPad, nb);
      PagesAdd(w.top + w.topSize, sbrkSize);
      if !env.first || (if ready then top + oldTopSize - sbrkBase else 0) + sbrkSize + 2 * 4096 >= LONG_MAX {
        return;
      }
      if ready {
        var topSize := sbrkSize + oldTopSize;
        ResizeTop(w, head, foot, topSize);
        head := head[top := topSize + 1];
        w := w.(topSize := topSize);
      } else {
        StartTop(sbrkSize, env);
      }
    }

    /** The branch of malloc_extend_top that places top for the first time. */
    method StartTop(sbrkSize: int, env: Sbrk)
      requires Valid() && !ready && MINSIZE <= sbrkSize < LONG_MAX - 2 * 4096 && 0 < env.brk && sbrkBase <= env.brk
      modifies this`head, this`top, this`ready, this`sbrkBase, this`w
      ensures Valid()
      ensures w.size == old(w.size) && w.free == old(w.free)
      ensures if env.second then
                && ready && sbrkSize < w.topSize <= sbrkSize + 4096 && w.top % 8 == 0 && env.brk <= w.top < env.brk + 8
                && sbrkBase == if old(sbrkBase) != 0 then old(sbrkBase) else env.brk
              else w == old(w)
    {
      SlotsAreChunks(w, w.free);
      var brk := env.brk;
      if sbrkBase == 0 {
        sbrkBase := brk;
      }
      var frontMisalign := (brk + 2 * SIZE_SZ) % 8;
      var correction := 0;
      if frontMisalign > 0 {
        correction := 8 - frontMisalign;
        brk := brk + correction;
      }
      correction := correction + 4096 - (brk + sbrkSize) % 4096;
      if !env.second {
        return;
      }
      var newBrk := env.brk + sbrkSize;
      var topSize := newBrk - brk + correction;
      FirstTop(brk, sbrkSize, topSize);
      top, ready := brk, true;
      head := head[top := topSize + 1];
      w := Tiling(brk, brk, topSize, map[], map[], {});
      FreshTiling(w, head, foot);
    }

    /** The end of the last stage: cut nb bytes off the low end of top. */
    method CarveTop(nb: int) returns (victim: int)
      requires Valid() && ready && MINSIZE <= nb <= w.topSize - MINSIZE && nb % 8 == 0
      modifies this`head, this`top, this`w
      ensures Valid() && victim == old(top) && w == Carve(old(w), nb)
      ensures Allocated(old(w), w, victim, nb)
    {
      ReadTop(w, head, foot);
      var remainderSize := TopSize() - nb;
      CarveTags(w, head, foot, nb);
      SlotsAreChunks(w, b.slot.Keys);
      PlacedFrame(b, w.size, Carve(w, nb).size);
      assert top in w.free ==> StandsAlone(w, top);
      victim := top;
      head := head[victim := nb + 1];
      top := victim + nb;
      head := head[top := remainderSize + 1];
      w := Carve(w, nb);
    }

    /** Stage 3: scan the bins for a best fit and take or split it; 0 when nothing fits. */
    method UseBins(idx: int, nb: int) returns (victim: int)
      requires Valid() && MINSIZE <= nb && nb % 8 == 0
      requires ReadyToScan(b, w.size, idx, nb) && b.lists[LAST_REMAINDER] == []
      modifies this`head, this`foot, this`fd, this`bk, this`b, this`w, this`binblocks
      ensures Valid()
      ensures victim != 0 ==> Allocated(old(w), w, victim, nb) && BestFrom(old(b), old(w.size), 2, nb, victim)
      ensures victim == 0 ==> w == old(w) && b == old(b) && NoneFrom(b, w.size, 2, nb)
    {
      BinnedSizesHold();
      forall i | idx <= i < NAV && b.lists[i] != []
        ensures HasFit(b, w.size, i, nb)
      {
        if BinIndex(nb) < i { LaterBinsFit(i, nb); }
      }
      victim := ScanBins(idx, nb);
      if victim == 0 {
        return;
      }
      ReadTags(w, head, foot, victim);
      var remainderSize := head[victim] - head[victim] % 4 - nb;
      if remainderSize >= MINSIZE {
        SplitAllocates(w, victim, nb);
        SplitChunk(victim, nb);
      } else {
        WholeAllocates(w, victim, nb);
        TakeChunk(victim);
      }
    }

    /** Stage 4: top, extended if need be; 0 exactly when top is too small and the system gives no more memory. */
    method UseTop(nb: int, env: Sbrk) returns (victim: int)
      requires Valid() && MINSIZE <= nb < LONG_MAX && nb % 8 == 0 && 0 < env.brk && sbrkBase <= env.brk
      modifies this`head, this`top, this`ready, this`sbrkBase, this`w
      ensures Valid() && (old(ready) ==> ready)
      ensures victim != 0 ==> Allocated(old(w), w, victim, nb) && victim !in old(w.free)
      ensures victim == 0 ==> w == old(w)
      ensures victim == 0 <==> old(w.topSize) < nb + MINSIZE && !Grants(old(w), old(sbrkBase), topPad, nb, env)
    {
      hide Grants, SbrkSize;
      if ready { ReadTop(w, head, foot); }
      if TopSize() - nb < MINSIZE {
        ExtendTop(nb, env);
        if ready { ReadTop(w, head, foot); }
        if TopSize() - nb < MINSIZE {
          return 0;
        }
      }
      TopIsNoChunk(w);
      SlotsAreChunks(w, w.free);
      victim := CarveTop(nb);
    }

    /** The stages in order, for a padded request. */
    method Allocate(nb: int, env: Sbrk) returns (victim: int)
      requires Valid() && MINSIZE <= nb < LONG_MAX && nb % 8 == 0 && 0 < env.brk && sbrkBase <= env.brk
      modifies this
      ensures Valid() && (old(ready) ==> ready)
      ensures victim == 0 <==> Refused(old(w), old(sbrkBase), topPad, nb, env)
      ensures victim == 0 ==> w == old(w)
      ensures victim != 0 ==> Allocated(old(w), w, victim, nb)
      ensures FitPolicy(old(w), old(b), nb, victim)
    {
      hide Heap, Linked, Placed, Indexed, Partition, HasFit, NoneFrom, Coalesced, Tiled, Grants;
      ghost var w0, b0 := w, b;
      NullIsNoChunk(w, head, foot);
      var idx;
      victim, idx := ExactFit(nb);
      if victim != 0 {
        WholeAllocates(w, victim, nb);
        BestIsNoRemainder(b0, w0.size, nb, victim);
        TakeChunk(victim);
        return;
      }
      victim := UseRemainder(nb, idx);
      if victim != 0 {
        return;
      }
      ghost var b1 := b;
      victim := UseBins(idx, nb);
      if victim != 0 {
        BestTransfers(b0, b1, w0.size, nb, victim);
        BestIsNoRemainder(b0, w0.size, nb, victim);
        return;
      }
      NothingFits(nb);
      victim := UseTop(nb, env);
    }

    /**
     mALLOc.  A live block is added and no other changes; its chunk is aligned, within MINSIZE of the padded
     request, and holds the request unless that reaches the sign bit.  FitPolicy says which chunk is chosen.
     It fails exactly when no free chunk fits, top is too small and the system refuses, and then changes nothing.
     */
    method Malloc(bytes: nat, env: Sbrk) returns (mem: int)
      requires Valid() && bytes < WORD && 0 < env.brk && sbrkBase <= env.brk
      modifies this
      ensures Valid() && (old(ready) || mem != 0 ==> ready)
      ensures mem == 0 <==> Refused(old(w), old(sbrkBase), topPad, Request2Size(bytes), env)
      ensures mem == 0 ==> w == old(w) && FitPolicy(old(w), old(b), Request2Size(bytes), 0)
      ensures mem != 0 ==>
                var p, nb := mem - 2 * SIZE_SZ, Request2Size(bytes);
                && Allocated(old(w), w, p, nb) && FitPolicy(old(w), old(b), nb, p)
                && mem % 8 == 0
                && (mem + bytes <= p + w.size[p] + SIZE_SZ <== bytes + 11 < LONG_MAX)
    {
      PaddedRequest(bytes);
      var victim := Allocate(Request2Size(bytes), env);
      if victim == 0 {
        return 0;
      }
      ChunkFacts(victim);
      return victim + 2 * SIZE_SZ;
    }

    /** Once initialised, top has at least MINSIZE bytes. */
    lemma TopKeepsMinsize()
      requires Valid() && ready
      ensures MINSIZE <= w.topSize
    {}

    lemma NothingFits(nb: int)
      requires Valid() && b.lists[LAST_REMAINDER] == [] && NoneFrom(b, w.size, 2, nb)
      ensures forall a :: a in w.free ==> a in w.size && w.size[a] < nb
    {
      SlotsAreChunks(w, w.free);
      forall a | a in w.free
        ensures w.size[a] < nb
      {
        var i, k := Position(b, a);
        assert PlacedAt(b, w.size, i, k);
        BinIndexMonotone(w.size[a], w.size[a]);
      }
    }

    // -------------------------------------------------------------- fREe

    /** The branch of fREe for a chunk that borders top. */
    method FreeIntoTop(p0: int) returns (sz: int)
      requires Valid() && p0 in Used(w) && Next(w, p0) == w.top
      modifies this`head, this`fd, this`bk, this`b, this`top, this`w
      ensures Valid() && sz == w.topSize && ready
      ensures Released(old(w), w, p0)
      ensures w.top == FreedStart(old(w), p0) && w.top + w.topSize == old(w.top + w.topSize)
    {
      hide Aligned, Tagged, Indexed, Placed, Partition, BinIndex, Released;
      AbsorbedLive(w, head, foot, p0);
      ReadTags(w, head, foot, p0);
      ReadTop(w, head, foot);
      SlotsAreChunks(w, b.slot.Keys);
      ghost var w' := Absorb(MergedBack(w, p0), FreedStart(w, p0));
      assert PrevFits(w, p0);
      var p, hd := p0, head[p0];
      sz := hd - hd % 2;
      sz := sz + (head[p0 + sz] - head[p0 + sz] % 4);
      if hd % 2 == 0 {
        var prevsz := foot[p];
        p := p - prevsz;
        assert ChunkFits(w, p);
        sz := sz + prevsz;
        Unlink(p);
      }
      head := head[p := sz + 1];
      top := p;
      PlacedFrame(b, w.size, w'.size);
      w := w';
    }

    /** A binned chunk's fd word names last_remainder exactly when it is the last remainder. */
    lemma FdOfRemainder(p: int)
      requires BinsOk() && p in b.slot
      ensures p in fd && (fd[p] == Header(LAST_REMAINDER) <==> b.slot[p] == LAST_REMAINDER)
    {
      var i, k := Position(b, p);
      assert RingAt(b, fd, bk, i);
      assert LinkAt(fd, bk, Header(i), b.lists[i], k);
      if k + 1 < |b.lists[i]| { assert Slotted(b, i, k + 1); }
    }

    /**
     The first half of the other branch of fREe: clear the in-use bit of p0, take free neighbours out of
     their bins unless the result can stay (or become) the last remainder, and add up the sizes.
     */
    method DetachNeighbours(p0: int) returns (p: int, sz: int, islr: bool)
      requires Valid() && p0 in Used(w) && Next(w, p0) in w.size
      modifies this`head, this`fd, this`bk, this`b
      ensures BinsOk()
      ensures head == old(head)[Next(w, p0) := w.size[Next(w, p0)]]
      ensures p == FreedStart(w, p0) && p in MergedBack(w, p0).size && p in Freed(w, p0).size && sz == Freed(w, p0).size[p]
      ensures if islr then p in b.slot && b.slot[p] == LAST_REMAINDER else p !in b.slot
      ensures b.slot.Keys == if islr then Freed(w, p0).free else Freed(w, p0).free - {p}
    {
      hide Aligned, Tagged, Indexed, BinIndex, Coalesced, Freed, MergedBack, FreedStart;
      FreedShape(w, head, foot, p0);
      ReadTags(w, head, foot, p0);
      var next := p0 + (head[p0] - head[p0] % 2);
      ReadTags(w, head, foot, next);
      assert ChunkFits(w, next) && ChunkFits(w, p0);
      var nextsz := head[next] - head[next] % 4;
      p, sz, islr := DetachBack(p0);
      assert ChunkFits(w, p);
      head := head[next := nextsz];
      if head[next + nextsz] % 2 == 0 {
        sz := sz + nextsz;
        FdOfRemainder(next);
        if !islr && fd[next] == Header(LAST_REMAINDER) {
          islr := true;
          ghost var i, k := Position(b, next);
          LinkLastRemainder(p);
          assert b.slot.Keys == w.free - {next} + {p};
        } else {
          Unlink(next);
          assert b.slot.Keys == if islr then w.free - {next} + {p} else w.free - {next} + {p} - {p};
        }
      } else {
        assert b.slot.Keys == if islr then w.free - {next} + {p} else w.free - {next} + {p} - {p};
      }
    }

    /** Backwards: a free chunk before p0 leaves its bin, unless it is the last remainder. */
    method DetachBack(p0: int) returns (p: int, sz: int, islr: bool)
      requires Valid() && p0 in Used(w)
      modifies this`fd, this`bk, this`b
      ensures BinsOk() && p == FreedStart(w, p0) && p in w.size && sz == p0 + w.size[p0] - p
      ensures p != Next(w, p0)
      ensures if islr then p in b.slot && b.slot[p] == LAST_REMAINDER else p !in b.slot
      ensures b.slot.Keys == if islr then w.free else w.free - {p}
    {
      hide Aligned, Tagged, Indexed, Placed, BinIndex, Coalesced, Partition;
      ReadTags(w, head, foot, p0);
      assert PrevFits(w, p0) && ChunkFits(w, p0);
      var hd := head[p0];
      p, sz := p0, hd - hd % 2;
      islr := false;
      if hd % 2 == 0 {
        var prevsz := foot[p];
        p := p - prevsz;
        assert ChunkFits(w, p);
        sz := sz + prevsz;
        FdOfRemainder(p);
        if fd[p] == Header(LAST_REMAINDER) {
          islr := true;
        } else {
          Unlink(p);
        }
      }
    }

    /** The second half: write the tags of the merged chunk and file it unless it is the last remainder. */
    method FileFreed(p: int, sz: int, islr: bool, ghost w': Tiling)
      requires BinsOk() && Heap(w', head[p := sz + 1], foot[p + sz := sz])
      requires w'.top == top == w.top && w'.topSize == w.topSize && w'.base == w.base
      requires (ready <==> w.topSize != 0) && 0 <= sbrkBase && (ready ==> 0 < sbrkBase <= w.base) && topPad < 0x4000_0000 && PageEnd(w)
      requires p in w'.free && p in w'.size && sz == w'.size[p]
      requires if islr then p in b.slot && b.slot[p] == LAST_REMAINDER else p !in b.slot
      requires b.slot.Keys == if islr then w'.free else w'.free - {p}
      requires forall a :: a in w'.size && a != p ==> a in w.size && w'.size[a] == w.size[a]
      modifies this`head, this`foot, this`fd, this`bk, this`b, this`binblocks, this`w
      ensures Valid() && w == w'
    {
      hide Tiled, Aligned, Coalesced, Tagged, Indexed, Placed, Partition, Heap, BinIndex;
      head := head[p := sz + 1];
      foot := foot[p + sz := sz];
      FreeFacts(w', head, foot, p);
      PlacedResize(b, w.size, w'.size, p);
      w := w';
      if !islr {
        BinnedSizesOf(w, head, foot, b.slot.Keys);
        Frontlink(p, sz);
      }
      assert b.slot.Keys == w.free;
    }

    /** The branch of fREe for a chunk that does not border top. */
    method FreeAmongChunks(p0: int)
      requires Valid() && p0 in Used(w) && Next(w, p0) in w.size
      modifies this`head, this`foot, this`fd, this`bk, this`b, this`binblocks, this`w
      ensures Valid() && w.top == old(w.top) && w.topSize == old(w.topSize)
      ensures Released(old(w), w, p0)
    {
      FreedTags(w, head, foot, p0);
      FreedLive(w, head, foot, p0);
      FreedSizes(w, head, foot, p0);
      ghost var w' := Freed(w, p0);
      hide Tiled, Aligned, Coalesced, Tagged, Released, Indexed, Placed, Partition, Heap, BinIndex;
      var p, sz, islr := DetachNeighbours(p0);
      FileFreed(p, sz, islr, w');
    }

    /**
     malloc_trim, when nobody else moved the break; shrink says whether MORECORE(-extra) succeeds.  The pad must be
     safe for the size of top, or top would lose its minimum (TrimExact).
     */
    method Trim(pad: nat, shrink: bool) returns (released: bool)
      requires Valid() && pad < WORD && (ready && shrink ==> TrimSafe(w.topSize, pad))
      modifies this`head, this`w
      ensures Valid() && SameLive(old(w), w) && w.free == old(w.free)
      ensures w.base == old(w.base) && w.top == old(w.top) && (ready ==> MINSIZE <= w.topSize)
      ensures released <==> 4096 <= TrimBytes(old(w.topSize), pad) && ready && shrink
      ensures released ==> w.topSize == old(w.topSize) - TrimBytes(old(w.topSize), pad)
      ensures released ==> (old(w.topSize) - w.topSize) % 4096 == 0 && old(w.topSize) - w.topSize >= 4096
      ensures released && pad <= old(w.topSize) + 4079 ==> pad + 16 < w.topSize <= pad + 16 + 4096
      ensures !released ==> w == old(w)
    {
      hide TrimSafe, TrimBytes;
      if ready {
        ReadTop(w, head, foot);
        TrimExact(w.topSize, pad);
      }
      var topSize := TopSize();
      var extra := TrimBytes(topSize, pad);
      if extra < 4096 || !ready || !shrink {
        return false;
      }
      ResizeTop(w, head, foot, topSize - extra);
      head := head[top := topSize - extra + 1];
      w := w.(topSize := topSize - extra);
      released := true;
    }

    /** fREe: exactly the block at mem stops being live; free(0) does nothing. */
    method Free(mem: int, shrink: bool)
      requires Valid() && (mem == 0 || mem - 2 * SIZE_SZ in Used(w))
      modifies this
      ensures Valid() && (old(ready) || mem != 0 ==> ready)
      ensures mem == 0 ==> w == old(w) && b == old(b)
      ensures mem != 0 ==> Released(old(w), w, mem - 2 * SIZE_SZ)
      ensures mem != 0 && Next(old(w), mem - 2 * SIZE_SZ) != old(w.top) ==> w.top == old(w.top) && w.topSize == old(w.topSize)
      ensures mem != 0 && Next(old(w), mem - 2 * SIZE_SZ) == old(w.top) ==> // merged into top, and trimmed if that is large
                && w.top == FreedStart(old(w), mem - 2 * SIZE_SZ)
                && var total := old(w.top + w.topSize) - w.top;
                   var extra := TrimBytes(total, topPad);
                   w.topSize == if trimThreshold <= total && 4096 <= extra && shrink then total - extra else total
    {
      if mem == 0 {
        return;
      }
      var p := mem - 2 * SIZE_SZ;
      ReadTags(w, head, foot, p);
      TopIsNoChunk(w);
      if p + (head[p] - head[p] % 2) == top {
        var sz := FreeIntoTop(p);
        if sz >= trimThreshold {
          OrdinaryPadIsSafe(w.topSize, topPad);
          var _ := Trim(topPad, shrink);
        }
      } else {
        FreeAmongChunks(p);
      }
    }

    // -------------------------------------------------------------- mEMALIGn

    /** Cut the live chunk p after n bytes, both parts live: two set_head calls. */
    method SplitLive(p: int, n: int)
      requires Valid() && p in Used(w) && MINSIZE <= n <= w.size[p] - MINSIZE && n % 8 == 0
      modifies this`head, this`w
      ensures Valid() && w == Split(old(w), p, n)
      ensures p + n !in old(w.size) && p + n !in old(w.free)
    {
      SplitUsedTags(w, head, foot, p, n);
      ReadTags(w, head, foot, p);
      SlotsAreChunks(w, w.free);
      ghost var w' := Split(w, p, n);
      PlacedFrame(b, w.size, w'.size);
      var hd := head[p];
      head := head[p + n := hd - hd % 4 - n + 1];
      head := head[p := n + hd % 2];
      w := w';
    }

    /** Give back the first lead bytes of the live chunk p. */
    method DropLeader(p: int, lead: int, shrink: bool) returns (newp: int)
      requires Valid() && p in Used(w) && MINSIZE <= lead <= w.size[p] - MINSIZE && lead % 8 == 0
      modifies this
      ensures Valid() && newp == p + lead && ready
      ensures Moved(old(w), w, p, newp) && w.size[newp] == old(w.size)[p] - lead
    {
      ghost var w0 := w;
      newp := p + lead;
      SplitLive(p, lead);
      ghost var w1 := w;
      ChunkFacts(p);
      Free(p + 2 * SIZE_SZ, shrink);
      LeaderMoved(w0, w1, w, p, lead);
    }

    /** Give back what the live chunk p has beyond nb bytes, if that makes a chunk. */
    method DropTail(p: int, nb: int, shrink: bool)
      requires Valid() && p in Used(w) && MINSIZE <= nb <= w.size[p] && nb % 8 == 0
      modifies this
      ensures Valid() && ready
      ensures Moved(old(w), w, p, p) && nb <= w.size[p] < nb + MINSIZE
    {
      ghost var w0 := w;
      ReadTags(w, head, foot, p);
      ChunkFacts(p);
      var remainderSize := head[p] - head[p] % 4 - nb;
      if remainderSize >= MINSIZE {
        SplitLive(p, nb);
        ghost var w1 := w;
        ChunkFacts(p + nb);
        Free(p + nb + 2 * SIZE_SZ, shrink);
        TailMoved(w0, w1, w, p, nb);
      } else {
        assert Moved(w0, w, p, p);
      }
    }

    /**
     mEMALIGn for a power of two: a live block is added and no other changes, its address is a multiple
     of the alignment and its chunk within MINSIZE of the padded request.  It fails exactly when mALLOc refuses
     what it asks for.  The sum it asks for must stay below the sign bit, or its chunk is too small (AlignmentExact).
     */
    method Memalign(alignment: nat, bytes: nat, env: Sbrk, shrink: bool) returns (mem: int)
      requires Valid() && PowerOfTwo(alignment) && alignment < WORD && bytes < WORD && 0 < env.brk && sbrkBase <= env.brk
      requires AlignmentFits(alignment, bytes)
      modifies this
      ensures Valid() && (old(ready) || mem != 0 ==> ready)
      ensures mem == 0 <==> Refused(old(w), old(sbrkBase), topPad, AskedFor(alignment, bytes), env)
      ensures mem == 0 ==> w == old(w)
      ensures mem != 0 ==> Allocated(old(w), w, mem - 2 * SIZE_SZ, Request2Size(bytes)) && MultipleOf(mem, alignment)
    {
      hide PowerOfTwo, MultipleOf, FitPolicy, Heap, Linked, Placed, Indexed, Request2Size, Refused;
      PowerFacts(alignment);
      if alignment <= 8 {
        mem := Malloc(bytes, env);
        if mem != 0 { SmallPower(alignment, mem); }
      } else {
        PaddedRequest(bytes);
        mem := MemalignLarge(alignment, Request2Size(bytes), env, shrink);
      }
    }

    /** The part of mEMALIGn for alignments above that of mALLOc. */
    method MemalignLarge(alignment: nat, nb: nat, env: Sbrk, shrink: bool) returns (mem: int)
      requires Valid() && 16 <= alignment && alignment % 8 == 0 && MINSIZE <= nb && nb % 8 == 0
      requires nb + alignment + MINSIZE + 11 < LONG_MAX && 0 < env.brk && sbrkBase <= env.brk
      modifies this
      ensures Valid() && (old(ready) || mem != 0 ==> ready)
      ensures mem == 0 <==> Refused(old(w), old(sbrkBase), topPad, Request2Size(nb + alignment + MINSIZE), env)
      ensures mem == 0 ==> w == old(w)
      ensures mem != 0 ==> Allocated(old(w), w, mem - 2 * SIZE_SZ, nb) && MultipleOf(mem, alignment)
    {
      hide MultipleOf, FitPolicy, Heap, Linked, Placed, Indexed, Request2Size, Refused;
      ghost var w0 := w;
      var request := nb + alignment + MINSIZE;
      PaddedRequest(request);
      mem := Malloc(request, env);
      if mem == 0 {
        return;
      }
      ghost var w1 := w;
      var p := AlignBlock(mem, alignment, nb, shrink);
      ghost var w2 := w;
      ChunkFacts(p);
      DropTail(p, nb, shrink);
      AlignedAllocates(w0, w1, w2, w, mem - 2 * SIZE_SZ, p, request, nb);
      mem := p + 2 * SIZE_SZ;
    }

    /** Move a block with room to spare to an aligned address, giving back the space before it. */
    method AlignBlock(mem: int, alignment: nat, nb: int, shrink: bool) returns (p: int)
      requires Valid() && mem - 2 * SIZE_SZ in Used(w) && 16 <= alignment && alignment % 8 == 0 && mem % 8 == 0
      requires nb % 8 == 0 && MINSIZE <= nb && nb + alignment + MINSIZE < w.size[mem - 2 * SIZE_SZ]
      modifies this
      ensures Valid() && ready && MultipleOf(p + 2 * SIZE_SZ, alignment)
      ensures Moved(old(w), w, mem - 2 * SIZE_SZ, p) && nb <= w.size[p]
    {
      hide AlignedSpot, MultipleOf;
      p := mem - 2 * SIZE_SZ;
      if !MultipleOf(mem, alignment) {
        SpotFacts(mem, alignment);
        p := DropLeader(p, AlignedSpot(mem, alignment) - p, shrink);
      }
    }
  }

  /** The padded size that mEMALIGn makes mALLOc look for. */
  function AskedFor(alignment: nat, bytes: nat): nat {
    Request2Size(if alignment <= 8 then bytes else AlignedRequest(alignment, bytes))
  }

  /** From w0 to w1 the live chunk p became the live chunk q, and no other live chunk changed. */
  ghost predicate Moved(w0: Tiling, w1: Tiling, p: int, q: int) {
    && p in Used(w0) && (q == p || q !in Used(w0))
    && Used(w1) == Used(w0) - {p} + {q}
    && forall a :: a in Used(w1) && a != q ==> w1.size[a] == w0.size[a]
  }

  lemma LeaderMoved(w0: Tiling, w1: Tiling, w2: Tiling, p: int, lead: int)
    requires p in Used(w0) && p + lead !in w0.size && w1 == Split(w0, p, lead) && lead != 0
    requires Released(w1, w2, p) && p + lead !in w0.free
    ensures Moved(w0, w2, p, p + lead) && w2.size[p + lead] == w0.size[p] - lead
  {
    assert Used(w1) == Used(w0) + {p + lead};
  }

  lemma TailMoved(w0: Tiling, w1: Tiling, w2: Tiling, p: int, n: int)
    requires p in Used(w0) && p + n !in w0.size && w1 == Split(w0, p, n) && n != 0
    requires Released(w1, w2, p + n) && p + n !in w0.free
    ensures Moved(w0, w2, p, p) && w2.size[p] == n
  {
    assert Used(w1) == Used(w0) + {p + n};
  }

  lemma AlignedAllocates(w0: Tiling, w1: Tiling, w2: Tiling, w3: Tiling, p: int, q: int, request: nat, nb: int)
    requires Allocated(w0, w1, p, Request2Size(request))
    requires Moved(w1, w2, p, q) && Moved(w2, w3, q, q) && nb <= w3.size[q] < nb + MINSIZE
    ensures Allocated(w0, w3, q, nb)
  {
  }

  lemma FreeFacts(w: Tiling, head: map<int, int>, foot: map<int, int>, p: int)
    requires Heap(w, head, foot) && p in w.size
    ensures w.free <= w.size.Keys
    ensures 0 < p && MINSIZE <= w.size[p] && w.size[p] % 8 == 0
  {
    SlotsAreChunks(w, w.free);
    assert ChunkFits(w, p) && AlignedAt(w, p);
  }

  lemma BinnedSizesOf(w: Tiling, head: map<int, int>, foot: map<int, int>, s: set<int>)
    requires Heap(w, head, foot) && s <= w.free
    ensures forall a :: a in s ==> a in w.size && a in head && head[a] - head[a] % 4 == w.size[a] && w.size[a] % 8 == 0
  {
    forall a | a in s
      ensures a in w.size && a in head && head[a] - head[a] % 4 == w.size[a] && w.size[a] % 8 == 0
    {
      assert StandsAlone(w, a);
      ReadTags(w, head, foot, a);
      assert AlignedAt(w, a);
    }
  }

  /** Sizes of free chunks other than the merged one do not change. */
  lemma FreedSizes(w: Tiling, head: map<int, int>, foot: map<int, int>, p: int)
    requires Heap(w, head, foot) && p in w.size && p !in w.free && Next(w, p) in w.size
    requires FreedStart(w, p) in MergedBack(w, p).size
    ensures forall a :: a in Freed(w, p).size && a != FreedStart(w, p) ==> a in w.size && Freed(w, p).size[a] == w.size[a]
  {
    MergedBackTags(w, head, foot, p);
    TopIsNoChunk(w);
    assert PrevFits(w, p);
  }

  /**
   Which chunk serves a request: from a bin a best fit; the last remainder only when no binned chunk has
   exactly the padded size; top, or failure, only when no free chunk is large enough.
   */
  ghost predicate FitPolicy(w: Tiling, b: Bins, nb: int, p: int) {
    if p in w.free then
      && p in b.slot
      && if b.slot[p] == LAST_REMAINDER
         then forall a :: a in b.slot && a in w.size && 2 <= b.slot[a] ==> w.size[a] != nb
         else BestFrom(b, w.size, 2, nb, p)
    else
      forall a :: a in w.free ==> a in w.size && w.size[a] < nb
  }

  lemma BestIsNoRemainder(b: Bins, size: map<int, int>, nb: int, p: int)
    requires BestFrom(b, size, 2, nb, p)
    ensures p in b.slot && b.slot[p] != LAST_REMAINDER
  {}

  lemma BestTransfers(b0: Bins, b1: Bins, size: map<int, int>, nb: int, p: int)
    requires BestFrom(b1, size, 2, nb, p) && b0.slot.Keys == b1.slot.Keys
    requires forall a :: a in b1.slot && a in size && nb <= size[a] ==> b0.slot[a] == b1.slot[a]
    ensures BestFrom(b0, size, 2, nb, p)
  {}

  lemma NullIsNoChunk(w: Tiling, head: map<int, int>, foot: map<int, int>)
    requires Heap(w, head, foot)
    ensures 0 !in w.free
  {
    assert 0 in w.free ==> StandsAlone(w, 0);
    assert 0 in w.size ==> ChunkFits(w, 0);
  }

  /** The same live chunks with the same sizes. */
  ghost predicate SameLive(w0: Tiling, w1: Tiling) {
    Used(w1) == Used(w0) && forall a :: a in Used(w0) ==> w1.size[a] == w0.size[a]
  }

  /** Round up to a page boundary. */
  function PageRound(x: int): int {
    (x + (4096 - 1)) / 4096 * 4096
  }

  /** Whole pages behind a page boundary end on one, and are a multiple of 8. */
  lemma PagesAdd(end: int, n: int)
    ensures n % 4096 == 0 ==> n % 8 == 0 && (end % 4096 == 0 ==> (end + n) % 4096 == 0)
  {
    assert n == 4096 * (n / 4096) + n % 4096;
  }

  lemma RoundedUp(x: int)
    ensures PageRound(x) % 4096 == 0 && PageRound(x) % 8 == 0 && x <= PageRound(x) < x + 4096
  {
    var y := (x + (4096 - 1)) / 4096;
    assert y * 4096 == 8 * (512 * y);
  }

  lemma ReadTop(w: Tiling, head: map<int, int>, foot: map<int, int>)
    requires Heap(w, head, foot) && w.topSize != 0
    ensures w.top in head && head[w.top] - head[w.top] % 4 == w.topSize && MINSIZE <= w.topSize && w.topSize % 8 == 0
  {
    Decode(head[w.top], w.topSize, 1);
  }

  lemma FirstTop(brk: int, sbrkSize: int, topSize: int)
    requires brk % 8 == 0 && topSize == sbrkSize + 4096 - (brk + sbrkSize) % 4096
    ensures topSize % 8 == 0 && sbrkSize < topSize <= sbrkSize + 4096 && (brk + topSize) % 4096 == 0
  {
    var x := brk + sbrkSize;
    assert x == 4096 * (x / 4096) + x % 4096;
    assert brk == 8 * (brk / 8);
    assert topSize == 8 * (512 * (x / 4096 + 1) - brk / 8);
    assert brk + topSize == 4096 * (x / 4096 + 1);
  }

  lemma FreshTiling(w: Tiling, head: map<int, int>, foot: map<int, int>)
    requires w.size == map[] && w.prev == map[] && w.free == {} && w.base == w.top
    requires 0 < w.base && w.base % 8 == 0 && w.topSize % 8 == 0
    requires MINSIZE <= w.topSize < LONG_MAX && w.top in head && head[w.top] == w.topSize + 1
    ensures Heap(w, head, foot)
  {}

  /** From w0 to w1 exactly one live chunk was added, at p, of at least nb and less than nb + MINSIZE bytes. */
  ghost predicate Allocated(w0: Tiling, w1: Tiling, p: int, nb: int) {
    && p !in Used(w0) && Used(w1) == Used(w0) + {p}
    && (forall a :: a in Used(w0) ==> w1.size[a] == w0.size[a])
    && nb <= w1.size[p] < nb + MINSIZE
  }

  lemma WholeAllocates(w: Tiling, a: int, nb: int)
    requires a in w.free && a in w.size && nb <= w.size[a] < nb + MINSIZE
    ensures Allocated(w, w.(free := w.free - {a}), a, nb)
  {}

  lemma SplitAllocates(w: Tiling, a: int, nb: int)
    requires Tiled(w) && a in w.free && a in w.size && MINSIZE <= nb <= w.size[a] - MINSIZE
    ensures Allocated(w, SplitFree(w, a, nb), a, nb)
  {
    InsideIsNoChunk(w, a, a + nb);
  }

  lemma SlotsAreChunks(w: Tiling, s: set<int>)
    requires Coalesced(w) && s <= w.free
    ensures s <= w.size.Keys
  {
    forall a | a in s
      ensures a in w.size
    {
      assert StandsAlone(w, a);
    }
  }

  lemma ClearedIsIndexed(b: Bins, bb: bv32, k: int)
    requires Indexed(b, bb) && 0 < k < 32
    requires forall i :: k * 4 <= i < k * 4 + 4 ==> b.lists[i] == []
    ensures Indexed(b, Without(bb, Block(k)))
  {
    hide Marked, Without, Block;
    forall i | 2 <= i < NAV && b.lists[i] != []
      ensures Marked(Without(bb, Block(k)), i / 4)
    {
      MarkAndClear(bb, k, i / 4);
    }
  }
}
