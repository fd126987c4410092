/**
 Sizes, bin numbers and the bin-block word of lib/dlmalloc.c in its 32-bit
 configuration: SIZE_SZ is 4, MALLOC_ALIGNMENT 8, MINSIZE 16, BINBLOCKWIDTH 4, pages of 4096 bytes.
 */
module MallocSizes {

  const SIZE_SZ := 4
  const MINSIZE := 16
  const NAV := 128
  const MAX_SMALLBIN_SIZE := 512
  const SMALLBIN_WIDTH := 8
  const WORD := 0x1_0000_0000
  const LONG_MAX := 0x8000_0000

  /** The value of an unsigned 32-bit word read as a signed long. */
  function ToLong(x: int): int {
    var u := x % WORD;
    if u < LONG_MAX then u else u - WORD
  }

  /** request2size: pad a request; the sum wraps and the comparison is signed. */
  function Request2Size(req: nat): nat {
    if ToLong(req + 11) < 23 then MINSIZE else ((req + 11) % WORD) / 8 * 8
  }

  /**
   A padded request is always an aligned legal chunk size, but it holds the request
   exactly when req + 11 does not reach the sign bit; there it is the least such size.
   */
  lemma PaddedRequest(req: nat)
    requires req < WORD
    ensures Request2Size(req) % 8 == 0
    ensures MINSIZE <= Request2Size(req) < LONG_MAX
    ensures req + SIZE_SZ <= Request2Size(req) <==> req + 11 < LONG_MAX
    ensures req + 11 < LONG_MAX ==> Request2Size(req) <= req + MINSIZE
    ensures req + 11 < LONG_MAX ==>
              forall n :: n % 8 == 0 && MINSIZE <= n && req + SIZE_SZ <= n ==> Request2Size(req) <= n
  {
    if req + 11 < LONG_MAX {
      forall n | n % 8 == 0 && MINSIZE <= n && req + SIZE_SZ <= n
        ensures Request2Size(req) <= n
      {
        assert n == 8 * (n / 8);
      }
    }
  }

  /** A request of 0xFFFFFFF0 bytes is padded to a 16-byte chunk. */
  lemma HugeRequestIsNotHeld()
    ensures Request2Size(0xFFFF_FFF0) == MINSIZE
  {}

  /** bin_index */
  function BinIndex(sz: nat): nat {
    if sz / 512 == 0 then sz / 8
    else if sz / 512 <= 4 then 56 + sz / 64
    else if sz / 512 <= 20 then 91 + sz / 512
    else if sz / 512 <= 84 then 110 + sz / 4096
    else if sz / 512 <= 340 then 119 + sz / 32768
    else if sz / 512 <= 1364 then 124 + sz / 262144
    else 126
  }

  /** Bin numbers grow with chunk size, and no ordinary chunk reaches the two special bins or the last bin. */
  lemma BinIndexMonotone(x: nat, y: nat)
    requires x <= y
    ensures BinIndex(x) <= BinIndex(y)
    ensures MINSIZE <= x ==> 2 <= BinIndex(x)
    ensures BinIndex(y) <= 126
  {
    BinIndexBand(x);
    BinIndexBand(y);
  }

  lemma BinIndexBand(x: nat)
    ensures x < 512 ==> BinIndex(x) <= 63
    ensures 512 <= x < 2560 ==> 64 <= BinIndex(x) <= 95
    ensures 2560 <= x < 10752 ==> 96 <= BinIndex(x) <= 111
    ensures 10752 <= x < 43520 ==> 112 <= BinIndex(x) <= 120
    ensures 43520 <= x < 174592 ==> 120 <= BinIndex(x) <= 124
    ensures 174592 <= x < 698880 ==> 124 <= BinIndex(x) <= 126
    ensures 698880 <= x ==> BinIndex(x) == 126
  {}

  /** The least size in each bin: 64 bins of size 8, 32 of 64, 16 of 512, 8 of 4096, 4 of 32768, 2 of 262144, where they meet. */
  function BinStart(i: nat): nat {
    if i <= 64 then 8 * i
    else if i <= 96 then 512 + 64 * (i - 64)
    else if i <= 112 then 2560 + 512 * (i - 96)
    else if i <= 120 then 12288 + 4096 * (i - 113)
    else if i <= 124 then 65536 + 32768 * (i - 121)
    else 262144 * (i - 124)
  }

  /** Bin i takes exactly the sizes from its start up to the start of the next; the last one takes all from its start on. */
  lemma BinIs(x: nat, i: nat)
    requires i <= 126
    ensures BinIndex(x) == i <==> BinStart(i) <= x && (i == 126 || x < BinStart(i + 1))
  {
    if i <= 64 { Whole(x, 8, i); } else { BinBand(x, i); }
  }

  lemma Whole(x: nat, w: nat, q: nat)
    requires w == 8 || w == 64 || w == 512 || w == 4096 || w == 32768 || w == 262144
    ensures x / w == q <==> w * q <= x < w * q + w
  {}

  lemma BinBand(x: nat, i: nat)
    requires 64 < i <= 126
    ensures BinIndex(x) == i <==> BinStart(i) <= x && (i == 126 || x < BinStart(i + 1))
  {
    if i <= 96 { Whole(x, 64, i - 56); }
    if 95 <= i <= 112 { Whole(x, 512, i - 91); }
    if 111 <= i <= 120 { Whole(x, 4096, i - 110); }
    if 119 <= i <= 124 { Whole(x, 32768, i - 119); }
    if 124 <= i { Whole(x, 262144, i - 124); }
  }

  // ---------------------------------------------------------------- binblocks

  /** idx2binblock for block number k: the word with only bit k set. */
  function Block(k: nat): bv32
    requires k < 32
  {
    if k == 0 then 0x1 else Block(k - 1) << 1
  }

  /** Bit k of the word bb is set. */
  predicate Marked(bb: bv32, k: nat)
    requires k < 32
  {
    Has(bb, Block(k))
  }

  predicate Has(bb: bv32, b: bv32) {
    bb & b != 0
  }

  /** mark_binblock and clear_binblock on a block word b */
  function With(bb: bv32, b: bv32): bv32 {
    bb | b
  }

  function Without(bb: bv32, b: bv32): bv32 {
    bb & !b
  }

  /** "block <= binblocks" and "block <<= 1" */
  predicate Reaches(bb: bv32, b: bv32) {
    b <= bb
  }

  function Up(b: bv32): bv32 {
    b << 1
  }

  predicate OneBit(b: bv32) {
    b != 0 && b & (b - 1) == 0
  }

  /** A shift keeps a lone bit unless it pushes it out. */
  lemma ShiftOneBit(b: bv32)
    requires OneBit(b) && b << 1 != 0
    ensures OneBit(b << 1)
  {}

  /** From the top block down: a block is not 0, for then the next one would be 0 too. */
  lemma {:induction false} BlockNotZero(k: nat)
    requires k < 32
    ensures Block(k) != 0
    decreases 32 - k
  {
    if k == 31 { TopBlock(); } else { BlockNotZero(k + 1); }
  }

  lemma TopBlock()
    ensures Block(31) == 0x8000_0000
  {
    assert Block(8) == 0x100;
    assert Block(16) == 0x1_0000;
    assert Block(24) == 0x100_0000;
  }

  /** Every block word has exactly one bit; successive ones are shifts, and only the last shifts out. */
  lemma {:induction false} BlockShift(k: nat)
    requires k < 32
    ensures OneBit(Block(k))
    ensures k < 31 ==> Block(k + 1) == Block(k) << 1
    ensures Block(k) << 1 == 0 <==> k == 31
  {
    if k > 0 { BlockShift(k - 1); ShiftOneBit(Block(k - 1)); }
    if k < 31 { BlockNotZero(k + 1); } else { TopBlock(); }
  }

  lemma {:induction false} BlockIncreasing(j: nat, k: nat)
    requires j < k < 32
    ensures Block(j) < Block(k)
  {
    BlockShift(k - 1);
    if j < k - 1 {
      BlockIncreasing(j, k - 1);
      BlockShift(j);
    }
    ShiftGrows(Block(k - 1));
  }

  lemma ShiftGrows(b: bv32)
    requires OneBit(b) && b << 1 != 0
    ensures b < b << 1
  {}

  lemma OneBitsDisjoint(a: bv32, b: bv32)
    requires OneBit(a) && OneBit(b) && a != b
    ensures a & b == 0
  {}

  lemma SetBit(bb: bv32, a: bv32, b: bv32)
    requires OneBit(a) && OneBit(b)
    ensures Has(With(bb, a), b) <==> a == b || Has(bb, b)
  {
    if a != b { OneBitsDisjoint(a, b); DropSet(bb, a, b); }
  }

  lemma DropSet(bb: bv32, a: bv32, b: bv32)
    requires a & b == 0
    ensures (bb | a) & b == bb & b
    ensures bb & !a & b == bb & b
  {}

  lemma ClearBit(bb: bv32, a: bv32, b: bv32)
    requires OneBit(a) && OneBit(b)
    ensures Has(Without(bb, a), b) <==> a != b && Has(bb, b)
  {
    if a != b { OneBitsDisjoint(a, b); DropSet(bb, a, b); }
  }

  lemma AboveWord(bb: bv32, b: bv32)
    requires OneBit(b)
    ensures bb < b ==> !Has(bb, b)
    ensures b <= bb && !Has(bb, b) ==> b << 1 != 0 && b << 1 <= bb
  {}

  lemma BlocksDiffer(j: nat, k: nat)
    requires j < 32 && k < 32
    ensures OneBit(Block(j)) && OneBit(Block(k))
    ensures Block(j) == Block(k) <==> j == k
  {
    BlockShift(k);
    BlockShift(j);
    if j < k { BlockIncreasing(j, k); }
    if k < j { BlockIncreasing(k, j); }
  }

  /** mark_binblock and clear_binblock change exactly the bit of their block. */
  lemma MarkAndClear(bb: bv32, k: nat, j: nat)
    requires k < 32 && j < 32
    ensures Marked(With(bb, Block(k)), j) <==> j == k || Marked(bb, j)
    ensures Marked(Without(bb, Block(k)), j) <==> j != k && Marked(bb, j)
  {
    hide Block, OneBit, Has, With, Without;
    BlocksDiffer(j, k);
    SetBit(bb, Block(k), Block(j));
    ClearBit(bb, Block(k), Block(j));
  }

  /** The numeric test "block <= binblocks": it fails exactly when no block from k up is marked. */
  lemma {:induction false} NoBlockAbove(bb: bv32, k: nat)
    requires k < 32
    ensures Reaches(bb, Block(k)) <==> exists j :: k <= j < 32 && Marked(bb, j)
    decreases 32 - k
  {
    BlockShift(k);
    AboveWord(bb, Block(k));
    if Block(k) <= bb {
      if !Marked(bb, k) {
        NoBlockAbove(bb, k + 1);
      }
    } else {
      forall j | k <= j < 32
        ensures !Marked(bb, j)
      {
        BlockShift(j);
        if k < j { BlockIncreasing(k, j); }
        AboveWord(bb, Block(j));
      }
    }
    if exists j :: k <= j < 32 && Marked(bb, j) {
      var j :| k <= j < 32 && Marked(bb, j);
      assert Block(k) <= bb;
    }
  }

  /** Passing over an unmarked block while some later block is marked. */
  lemma PassBlock(bb: bv32, k: nat)
    requires k < 32 && Reaches(bb, Block(k)) && !Has(bb, Block(k))
    ensures k < 31 && Block(k + 1) == Up(Block(k)) && Reaches(bb, Block(k + 1))
    ensures !Marked(bb, k)
  {
    BlockShift(k);
    AboveWord(bb, Block(k));
  }

  lemma UpBlock(k: nat)
    requires k < 32
    ensures k < 31 ==> Up(Block(k)) == Block(k + 1)
    ensures Up(Block(k)) == 0 <==> k == 31
  {
    BlockShift(k);
  }
}
