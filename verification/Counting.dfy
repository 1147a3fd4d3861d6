/** How marking a CIDR changes the free-block count of every block size. */
module Counting {
  import opened Powers
  import opened Cidrs
  import opened Bitmap

  /** The free count of /t blocks over the whole pool. */
  ghost function FreeAt(pool: Cidr, bits: set<int>, t: nat): nat
    requires pool.V4? && t <= 32
  {
    FreeCount(bits, BlockBits(t), TotalBlocks(pool, t))
  }

  function Max(a: int, b: int): int {
    if a < b then b else a
  }

  predicate FreeBlock(bits: set<int>, block: nat, j: nat) {
    Free(bits, j * block, block)
  }

  /** Exactly the blocks lo..hi stop being free. */
  lemma {:induction false} CountDrop(bits: set<int>, bits': set<int>, block: nat, lo: nat, hi: nat, n: nat)
    requires lo <= hi
    requires forall j: nat :: j < n ==>
               if lo <= j < hi then FreeBlock(bits, block, j) && !FreeBlock(bits', block, j)
               else FreeBlock(bits, block, j) == FreeBlock(bits', block, j)
    ensures FreeCount(bits', block, n) ==
            FreeCount(bits, block, n) - Max(0, (if n < hi then n else hi) - lo)
  {
    if n > 0 {
      CountDrop(bits, bits', block, lo, hi, n - 1);
      assert FreeBlock(bits, block, n - 1) == Free(bits, (n - 1) * block, block);
      assert FreeBlock(bits', block, n - 1) == Free(bits', (n - 1) * block, block);
    }
  }

  /** At most block `k` stops being free. */
  lemma {:induction false} CountOne(bits: set<int>, bits': set<int>, block: nat, k: nat, n: nat)
    requires forall j: nat :: j < n && j != k ==> FreeBlock(bits, block, j) == FreeBlock(bits', block, j)
    requires !FreeBlock(bits', block, k)
    ensures FreeCount(bits', block, n) ==
            FreeCount(bits, block, n) - (if k < n && FreeBlock(bits, block, k) then 1 else 0)
  {
    if n > 0 {
      CountOne(bits, bits', block, k, n - 1);
      assert FreeBlock(bits, block, n - 1) == Free(bits, (n - 1) * block, block);
      assert FreeBlock(bits', block, n - 1) == Free(bits', (n - 1) * block, block);
    }
  }

  lemma {:induction false} CountEmpty(block: nat, n: nat)
    ensures FreeCount({}, block, n) == n
  {
    if n > 0 { CountEmpty(block, n - 1); }
  }

  /** Every free block of twice the size holds two free blocks. */
  lemma {:induction false} CountDouble(bits: set<int>, block: nat, n: nat)
    ensures FreeCount(bits, block, 2 * n) >= 2 * FreeCount(bits, 2 * block, n)
  {
    if n > 0 {
      CountDouble(bits, block, n - 1);
      Halves(bits, block, n - 1);
      CountTwo(bits, block, 2 * n);
    }
  }

  lemma Halves(bits: set<int>, block: nat, j: nat)
    ensures Free(bits, j * (2 * block), 2 * block) ==>
              Free(bits, (2 * j) * block, block) && Free(bits, (2 * j + 1) * block, block)
  {
    var start := j * (2 * block);
    assert (2 * j) * block == start && (2 * j + 1) * block == start + block;
  }

  lemma CountTwo(bits: set<int>, block: nat, n: nat)
    requires n >= 2
    ensures FreeCount(bits, block, n) == FreeCount(bits, block, n - 2)
              + (if Free(bits, (n - 2) * block, block) then 1 else 0)
              + (if Free(bits, (n - 1) * block, block) then 1 else 0)
  {
    assert FreeCount(bits, block, n - 1) == FreeCount(bits, block, n - 2)
              + (if Free(bits, (n - 2) * block, block) then 1 else 0);
  }

  // ---------------------------------------------------------------- marking one CIDR of the pool

  /** A CIDR inside the pool occupies an aligned run of bits. */
  lemma OffsetAligned(pool: Cidr, c: Cidr)
    requires Within(c, pool)
    ensures (Network(c) - Network(pool)) % Size(c) == 0 && c.len >= pool.len
    ensures Starts(pool, c)
  {
    assert c.len >= pool.len by { SizeOrder(pool, c); }
    NetworkAligned(c, 32 - c.len);
    NetworkAligned(pool, 32 - c.len);
    SumAligned(Network(c), Network(pool), Size(c));
  }

  /** The position of a CIDR of the pool in units of a block size not larger than itself. */
  lemma InBlocks(pool: Cidr, c: Cidr, t: nat) returns (k: nat)
    requires Within(c, pool) && c.len <= t <= 32
    ensures Network(c) - Network(pool) == k * BlockBits(t)
    ensures Size(c) == Pow2(t - c.len) * BlockBits(t)
    ensures t >= pool.len && k + Pow2(t - c.len) <= TotalBlocks(pool, t)
  {
    OffsetAligned(pool, c);
    Pow2Add(t - c.len, 32 - t);
    Pow2Add(t - pool.len, 32 - t);
    k := UnitPosition(Network(c) - Network(pool), Pow2(t - c.len), BlockBits(t), TotalBlocks(pool, t));
  }

  lemma UnitPosition(o: nat, m: nat, b: nat, total: nat) returns (k: nat)
    requires m > 0 && b > 0 && o % (m * b) == 0 && o + m * b <= total * b
    ensures o == k * b && k + m <= total
  {
    DivMod(o, m * b);
    var i := o / (m * b);
    k := m * i;
    assert (m * b) * i == k * b;
    assert (k + m) * b == k * b + m * b;
    if total < k + m { MulStep(b, total, k + m); }
  }

  /** Marking lowers the count of blocks at least as small as `c` by the number of them in `c`. */
  lemma MarkLowersSmaller(pool: Cidr, bits: set<int>, c: Cidr, t: nat)
    requires Within(c, pool) && BitsOf(pool, c) !! bits && c.len <= t <= 32
    ensures FreeAt(pool, Mark(pool, bits, c), t) == FreeAt(pool, bits, t) - Pow2(t - c.len)
  {
    OffsetAligned(pool, c);
    var k := InBlocks(pool, c, t);
    var b, m := BlockBits(t), Pow2(t - c.len);
    var bits' := Mark(pool, bits, c);
    assert bits' == bits + Span(k * b, m * b);
    forall j: nat
      ensures if k <= j < k + m then FreeBlock(bits, b, j) && !FreeBlock(bits', b, j)
              else FreeBlock(bits, b, j) == FreeBlock(bits', b, j)
    {
      RunOfBlocks(bits, b, k, m, j);
    }
    CountDrop(bits, bits', b, k, k + m, TotalBlocks(pool, t));
  }

  /** Setting the bits of blocks k..k+m makes exactly those blocks not free. */
  lemma RunOfBlocks(bits: set<int>, b: nat, k: nat, m: nat, j: nat)
    requires b > 0 && Span(k * b, m * b) !! bits
    ensures var bits' := bits + Span(k * b, m * b);
            if k <= j < k + m then FreeBlock(bits, b, j) && !FreeBlock(bits', b, j)
            else FreeBlock(bits, b, j) == FreeBlock(bits', b, j)
  {
    var start, len, at := k * b, m * b, j * b;
    BlockPosition(b, k, m, j);
    var run := Span(start, len);
    if k <= j < k + m {
      assert at in run;
      assert forall i :: at <= i < at + b ==> i in run;
    } else {
      FreeApart(bits, run, at, b);
    }
  }

  lemma BlockPosition(b: nat, k: nat, m: nat, j: nat)
    ensures j < k ==> j * b + b <= k * b
    ensures k <= j < k + m ==> k * b <= j * b && j * b + b <= k * b + m * b
    ensures j >= k + m ==> k * b + m * b <= j * b
  {
    assert (k + m) * b == k * b + m * b;
    if j < k { MulStep(b, j, k); }
    if k < j { MulStep(b, k, j); }
    if j < k + m { MulStep(b, j, k + m); }
    if k + m < j { MulStep(b, k + m, j); }
  }

  lemma FreeApart(bits: set<int>, run: set<int>, start: int, n: nat)
    requires forall i :: start <= i < start + n ==> i !in run
    ensures Free(bits, start, n) == Free(bits + run, start, n)
  {}

  /** The block of a larger size around a CIDR of the pool. */
  lemma AroundBlock(pool: Cidr, c: Cidr, t: nat) returns (k: nat)
    requires Within(c, pool) && t <= c.len
    ensures var o, b := Network(c) - Network(pool), BlockBits(t);
            k * b <= o && o + Size(c) <= k * b + b
    ensures t >= pool.len ==> k < TotalBlocks(pool, t)
  {
    OffsetAligned(pool, c);
    var o := Network(c) - Network(pool);
    k := BlockAround(o, 32 - c.len, 32 - t);
    if t >= pool.len {
      Pow2Add(t - pool.len, 32 - t);
      BelowTotal(o, BlockBits(t), k, TotalBlocks(pool, t));
    }
  }

  lemma BlockAround(o: nat, a: nat, e: nat) returns (k: nat)
    requires a <= e && o % Pow2(a) == 0
    ensures k * Pow2(e) <= o && o + Pow2(a) <= k * Pow2(e) + Pow2(e)
  {
    DivMod(o, Pow2(e));
    k := o / Pow2(e);
    MultipleMod(Pow2(e), k);
    BlocksLaminar(o, a, Pow2(e) * k, e);
  }

  lemma BelowTotal(o: nat, b: nat, k: nat, total: nat)
    requires k * b <= o < total * b
    ensures k < total
  {
    if total < k { MulStep(b, total, k); }
  }

  lemma OtherBlocksKept(bits: set<int>, start: int, n: nat, b: nat, k: nat, j: nat)
    requires k * b <= start && start + n <= k * b + b && j != k
    ensures FreeBlock(bits, b, j) == FreeBlock(bits + Span(start, n), b, j)
  {
    if j < k { MulStep(b, j, k); } else { MulStep(b, k, j); }
    FreeApart(bits, Span(start, n), j * b, b);
  }

  /** Marking lowers the count of blocks at least as large as `c` by one if the block around `c`
      was free and is a block of the pool, and otherwise leaves it. */
  lemma MarkLowersLarger(pool: Cidr, bits: set<int>, c: Cidr, t: nat, k: nat)
    requires Within(c, pool) && BitsOf(pool, c) !! bits && t <= c.len
    requires var o, b := Network(c) - Network(pool), BlockBits(t);
             k * b <= o && o + Size(c) <= k * b + b
    ensures FreeAt(pool, Mark(pool, bits, c), t) == FreeAt(pool, bits, t)
              - (if k < TotalBlocks(pool, t) && FreeBlock(bits, BlockBits(t), k) then 1 else 0)
  {
    OffsetAligned(pool, c);
    var b, o := BlockBits(t), Network(c) - Network(pool);
    var bits' := Mark(pool, bits, c);
    assert bits' == bits + Span(o, Size(c));
    assert o in bits';
    forall j: nat | j != k ensures FreeBlock(bits, b, j) == FreeBlock(bits', b, j) {
      OtherBlocksKept(bits, o, Size(c), b, k, j);
    }
    CountOne(bits, bits', b, k, TotalBlocks(pool, t));
  }

  /** Free-count accounting for a successful allocation of a /s block. */
  lemma AllocationAccounting(pool: Cidr, bits: set<int>, s: nat, t: nat)
    requires PoolOk(pool) && MIN_SIZE <= s <= MAX_SIZE && MIN_SIZE <= t <= MAX_SIZE
    requires FreeAt(pool, bits, s) > 0
    ensures var i := FirstFree(bits, BlockBits(s), 0, TotalBlocks(pool, s));
            && i < TotalBlocks(pool, s)
            && var bits' := Mark(pool, bits, BlockAt(pool, s, i));
               && (t == s ==> FreeAt(pool, bits', t) == FreeAt(pool, bits, t) - 1)
               && (t > s ==> FreeAt(pool, bits', t) == FreeAt(pool, bits, t) - Pow2(t - s))
               && (t < s ==> FreeAt(pool, bits, t) - 1 <= FreeAt(pool, bits', t) <= FreeAt(pool, bits, t))
  {
    FirstFreeIffCount(bits, BlockBits(s), TotalBlocks(pool, s));
    var i := FirstFree(bits, BlockBits(s), 0, TotalBlocks(pool, s));
    var c := BlockAt(pool, s, i);
    assert BitsOf(pool, c) !! bits;
    if t >= s {
      MarkLowersSmaller(pool, bits, c, t);
    } else {
      var k := AroundBlock(pool, c, t);
      MarkLowersLarger(pool, bits, c, t, k);
    }
  }

  /** In every bitmap state a size has at least twice as many free blocks as the next larger one. */
  lemma FreeCountDoubles(pool: Cidr, bits: set<int>, t: nat)
    requires PoolOk(pool) && t < 32
    ensures FreeAt(pool, bits, t + 1) >= 2 * FreeAt(pool, bits, t)
  {
    if t >= pool.len { CountDouble(bits, BlockBits(t + 1), TotalBlocks(pool, t)); }
  }
}
