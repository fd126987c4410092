/** The unsigned sums of malloc_trim and mEMALIGn: when they come out as meant, exactly. */
module MallocSums {
  import opened MallocSizes
  import opened Powers
  import opened Bits

  // -------------------------------------------------------------- malloc_trim

  /** The number of bytes malloc_trim(pad) would give back of t: the sum is unsigned, the result a signed long. */
  function TrimBytes(t: int, pad: nat): int {
    ToLong((((t - pad - MINSIZE + 4095) % WORD) / 4096 - 1) * 4096)
  }

  /** pad is covered by t, or the wrapped sum is too small or too large to do harm. */
  predicate TrimSafe(t: int, pad: nat) {
    || pad <= t + 4079
    || (t + 4079 + (WORD - pad)) / 4096 * 4096 <= t + 4080
    || t + 4079 + (WORD - pad) >= LONG_MAX + 4096
  }

  /** Trimming leaves a top of t bytes its minimum if and only if pad is safe for it. */
  lemma TrimExact(t: int, pad: nat)
    requires MINSIZE <= t < LONG_MAX && pad < WORD
    ensures (4096 <= TrimBytes(t, pad) ==> MINSIZE <= t - TrimBytes(t, pad)) <==> TrimSafe(t, pad)
    ensures TrimBytes(t, pad) % 8 == 0 && TrimBytes(t, pad) % 4096 == 0
    ensures pad <= t + 4079 ==> pad + 16 < t - TrimBytes(t, pad) <= pad + 16 + 4096
    ensures pad > t + 4079 ==>
              var y := t + 4079 - pad + WORD;
              if y < LONG_MAX + 4096 then y - 8192 < TrimBytes(t, pad) <= y - 4096 else TrimBytes(t, pad) < 0
  {
    var x := t - pad - MINSIZE + 4095;
    if 0 <= x {
      assert x % WORD == x;
      TrimPages(x);
    } else {
      assert x % WORD == x + WORD;
      if x + WORD < LONG_MAX + 4096 { TrimPages(x + WORD); } else { TrimWraps(x + WORD); }
    }
  }

  /** Every pad a signed long can hold is safe. */
  lemma OrdinaryPadIsSafe(t: int, pad: nat)
    requires MINSIZE <= t && pad < LONG_MAX
    ensures TrimSafe(t, pad)
  {}

  lemma TrimPages(x: int)
    requires 0 <= x < LONG_MAX + 4096
    ensures var extra := ToLong((x / 4096 - 1) * 4096);
            extra == (x / 4096 - 1) * 4096 && x - 8192 < extra <= x - 4096 && extra % 8 == 0 && extra % 4096 == 0
  {
    var k := x / 4096 - 1;
    assert k * 4096 == 8 * (512 * k);
    assert (k * 4096) % WORD == if k < 0 then k * 4096 + WORD else k * 4096;
  }

  lemma TrimWraps(x: int)
    requires LONG_MAX + 4096 <= x < WORD
    ensures ToLong((x / 4096 - 1) * 4096) < 0 && ToLong((x / 4096 - 1) * 4096) % 8 == 0 && ToLong((x / 4096 - 1) * 4096) % 4096 == 0
  {
    var k := x / 4096 - 1;
    assert (k * 4096) % WORD == k * 4096;
    assert k * 4096 - WORD == 8 * (512 * k - 0x2000_0000) == 4096 * (k - 0x10_0000);
  }

  /** With a pad near 2^32 the unsigned sum wraps, and malloc_trim would give back all of a top of two pages. */
  lemma HugePadTakesAll()
    ensures TrimBytes(8192, 0xFFFF_F000) == 8192 && !TrimSafe(8192, 0xFFFF_F000)
  {}

  // -------------------------------------------------------------- mEMALIGn

  /** What mEMALIGn asks mALLOc for, without the wrap of the sum. */
  function AlignedRequest(alignment: nat, bytes: nat): nat {
    Request2Size(bytes) + alignment + MINSIZE
  }

  /** The chunk obtained has room for an aligned block wherever it lies. */
  predicate AlignmentFits(alignment: nat, bytes: nat) {
    alignment <= 8 || AlignedRequest(alignment, bytes) + 11 < LONG_MAX
  }

  /** The chunk that mALLOc gives for the wrapped sum holds the sum if and only if that stays below the sign bit. */
  lemma AlignmentExact(alignment: nat, bytes: nat)
    requires 16 <= alignment <= LONG_MAX && bytes < WORD
    ensures var total := AlignedRequest(alignment, bytes);
            Request2Size(total % WORD) >= total + SIZE_SZ <==> AlignmentFits(alignment, bytes)
  {
    PaddedRequest(bytes);
    PaddedRequest(AlignedRequest(alignment, bytes) % WORD);
  }

  /**
   With an alignment of 2^31 and a request near 2^31 the sum wraps to 8: no chunk that mALLOc may give for it,
   all of them below MINSIZE more than its padded size, holds the block.
   */
  lemma MemalignWraps()
    ensures var bytes := 0x7FFF_FFF0;
            && AlignedRequest(0x8000_0000, bytes) % WORD == 8
            && !AlignmentFits(0x8000_0000, bytes)
            && Request2Size(8) + MINSIZE <= Request2Size(bytes)
  {}

  /** The block of size nb that mEMALIGn takes out of the chunk at p of size sz ends inside the chunk. */
  predicate BlockFits(p: int, sz: int, alignment: nat, nb: nat)
    requires 0 < alignment
  {
    var mem := p + 2 * SIZE_SZ;
    (if MultipleOf(mem, alignment) then p else AlignedSpot(mem, alignment)) + nb <= p + sz
  }

  /** A chunk that mALLOc may give for a padded request: below 2^32, and less than MINSIZE larger. */
  predicate MayGive(p: int, sz: int, padded: nat) {
    0 < p && p + sz <= WORD && p % 8 == 0 && sz % 8 == 0 && MINSIZE <= padded <= sz < padded + MINSIZE
  }

  /**
   For every alignment above 8 that a 32-bit word holds and every request, the chunks mALLOc may give
   for the wrapped sum all hold the aligned block if and only if the sum stays below the sign bit.
   */
  lemma AlignmentServes(alignment: nat, bytes: nat)
    requires PowerOfTwo(alignment) && 8 < alignment < WORD && bytes < WORD
    ensures var padded, nb := Request2Size(AlignedRequest(alignment, bytes) % WORD), Request2Size(bytes);
            AlignmentFits(alignment, bytes) <==>
              forall p, sz :: MayGive(p, sz, padded) ==> BlockFits(p, sz, alignment, nb)
  {
    var padded, nb := Request2Size(AlignedRequest(alignment, bytes) % WORD), Request2Size(bytes);
    PowerFacts(alignment);
    LargestPower(alignment);
    PaddedRequest(bytes);
    AlignmentExact(alignment, bytes);
    var total := AlignedRequest(alignment, bytes);
    hide Request2Size, PowerOfTwo, BlockFits, MayGive;
    if AlignmentFits(alignment, bytes) {
      forall p, sz | MayGive(p, sz, padded) ensures BlockFits(p, sz, alignment, nb) {
        Serves(p, sz, alignment, nb, padded);
      }
    } else {
      WrapIsSmall(alignment, bytes);
      var p := WrapVictim(alignment, nb, padded);
      assert MayGive(p, padded, padded) && !BlockFits(p, padded, alignment, nb);
    }
  }

  lemma Serves(p: int, sz: int, alignment: nat, nb: nat, padded: nat)
    requires MayGive(p, sz, padded) && 16 <= alignment && alignment % 16 == 0 && nb + alignment + MINSIZE + SIZE_SZ <= padded
    ensures BlockFits(p, sz, alignment, nb)
  {
    hide AlignedSpot, MultipleOf;
    SpotFacts(p + 2 * SIZE_SZ, alignment);
  }

  /** A sum from the sign bit on is padded to at most 32 bytes. */
  lemma WrapIsSmall(alignment: nat, bytes: nat)
    requires 16 <= alignment <= LONG_MAX && bytes < WORD && !AlignmentFits(alignment, bytes)
    ensures var padded := Request2Size(AlignedRequest(alignment, bytes) % WORD); MINSIZE <= padded <= 32 && padded % 8 == 0
  {
    PaddedRequest(bytes);
  }

  /** A chunk whose block is 8 bytes short of an aligned address: the chunk before the aligned block takes alignment + 8 bytes. */
  lemma WrapVictim(n: nat, nb: nat, padded: nat) returns (p: int)
    requires 16 <= n <= LONG_MAX && n % 16 == 0 && MINSIZE <= nb && MINSIZE <= padded <= 32 && padded % 8 == 0
    ensures MayGive(p, padded, padded) && !BlockFits(p, padded, n, nb)
  {
    var q := if n == 16 then 2 else 1;
    ShortOf(q, n);
    p := Times(q, n) - 16;
    hide MultipleOf, RoundUp, Times;
    assert AlignedSpot(p + 2 * SIZE_SZ, n) == p + n + 8;
  }

  /** Rounding up from 8 below a multiple. */
  lemma ShortOf(q: int, n: nat)
    requires 16 <= n && 0 < q
    ensures var x := Times(q, n) - 8; !MultipleOf(x, n) && RoundUp(x, n) == Times(q, n)
    ensures Times(1, n) == n && Times(2, n) == 2 * n
  {
    var x := Times(q, n) - 8;
    Unique(x, n, q - 1, n - 8);
    Unique(x + n - 1, n, q, n - 9);
  }

  // -------------------------------------------------------------- multiples

  predicate PowerOfTwo(n: nat) {
    n == 1 || (n % 2 == 0 && n != 0 && PowerOfTwo(n / 2))
  }

  lemma PowerFacts(n: nat)
    requires PowerOfTwo(n)
    ensures 0 < n && (n <= 8 ==> n == 1 || n == 2 || n == 4 || n == 8)
    ensures 8 < n ==> n % 16 == 0 && 16 <= n
  {
    if n != 1 {
      assert PowerOfTwo(n / 2);
      if n / 2 != 1 {
        assert PowerOfTwo(n / 2 / 2);
        if n / 2 / 2 != 1 {
          assert PowerOfTwo(n / 2 / 2 / 2);
          if n / 2 / 2 / 2 != 1 { assert n / 2 / 2 / 2 % 2 == 0; }
        }
      }
    }
  }

  /** A power of two in a 32-bit word is at most 2^31. */
  lemma LargestPower(n: nat)
    requires PowerOfTwo(n) && n < WORD
    ensures n <= LONG_MAX
  {
    Pow2Values();
    PowerAbove(n, 31);
  }

  lemma {:induction false} PowerAbove(n: nat, k: nat)
    requires PowerOfTwo(n) && n < 2 * Pow2(k)
    ensures n <= Pow2(k)
  {
    if k > 0 && n != 1 { PowerAbove(n / 2, k - 1); }
  }

  predicate MultipleOf(x: int, n: nat) {
    n != 0 && x % n == 0
  }

  lemma SmallPower(n: nat, m: int)
    requires (n == 1 || n == 2 || n == 4 || n == 8) && m % 8 == 0
    ensures MultipleOf(m, n)
  {
    var k := m / 8;
    if n == 2 {
      assert m == 2 * (4 * k);
    } else if n == 4 {
      assert m == 4 * (2 * k);
    }
  }

  function Times(q: int, n: int): int {
    q * n
  }

  lemma TimesIsMultiple(q: int, n: nat)
    requires 0 < n
    ensures MultipleOf(Times(q, n), n)
  {
    var x := Times(q, n);
    var d := q - x / n;
    assert x % n == Times(d, n) by {
      assert x == Times(x / n, n) + x % n;
      assert Times(q, n) - Times(x / n, n) == Times(d, n);
    }
    TimesInRange(d, n);
  }

  lemma TimesInRange(d: int, n: nat)
    requires 0 < n && 0 <= Times(d, n) < n
    ensures Times(d, n) == 0
  {
    assert 1 <= d ==> n <= d * n;
    assert d <= -1 ==> d * n <= -1 * n;
  }

  /** (m + alignment - 1) & -alignment */
  function RoundUp(m: int, n: nat): int
    requires 0 < n
  {
    Times((m + n - 1) / n, n)
  }

  lemma RoundUpRange(m: int, n: nat)
    requires 0 < n
    ensures m <= RoundUp(m, n) < m + n
  {
    var x := m + n - 1;
    assert x == Times(x / n, n) + x % n;
  }

  /** A multiple of a multiple of 8 is 8 times something. */
  lemma TimesEight(q: int, n: nat)
    requires n % 8 == 0
    ensures Times(q, n) % 8 == 0
  {
    Regroup(q, n / 8);
    var k := Times(q, n / 8);
    assert Times(q, n) == 8 * k;
  }

  lemma Regroup(q: int, k: int)
    ensures Times(q, 8 * k) == 8 * Times(q, k)
  {}

  lemma TimesNext(q: int, n: int)
    ensures Times(q, n) + n == Times(q + 1, n)
  {}

  /** The first aligned spot inside the block at mem that leaves a chunk of at least MINSIZE before it. */
  function AlignedSpot(mem: int, alignment: nat): int
    requires 0 < alignment
  {
    var brk := RoundUp(mem, alignment) - 2 * SIZE_SZ;
    if brk - (mem - 2 * SIZE_SZ) < MINSIZE then brk + alignment else brk
  }

  lemma SpotFacts(mem: int, n: nat)
    requires 16 <= n && n % 8 == 0 && mem % 8 == 0
    ensures MultipleOf(AlignedSpot(mem, n) + 2 * SIZE_SZ, n)
    ensures MINSIZE <= AlignedSpot(mem, n) - (mem - 2 * SIZE_SZ) < n + MINSIZE
    ensures (AlignedSpot(mem, n) - (mem - 2 * SIZE_SZ)) % 8 == 0
  {
    var q := (mem + n - 1) / n;
    RoundUpRange(mem, n);
    TimesNext(q, n);
    TimesIsMultiple(q, n);
    TimesIsMultiple(q + 1, n);
    TimesEight(q, n);
    TimesEight(q + 1, n);
    hide MultipleOf, Times;
    EightApart(Times(q, n), mem);
    EightApart(Times(q + 1, n), mem);
  }

  lemma EightApart(x: int, y: int)
    requires x % 8 == 0 && y % 8 == 0
    ensures (x - y) % 8 == 0
  {}
}
