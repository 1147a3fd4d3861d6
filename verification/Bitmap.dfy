/** The bitmap allocator: one bit per address of the pool, all-or-nothing marking, first-fit
    search over aligned blocks, and free-block counts. */
module Bitmap {
  import opened Powers
  import opened Cidrs
  import opened Bytes

  const MIN_SIZE: nat := 16
  const MAX_SIZE: nat := 28

  datatype Result<+T> = Ok(value: T) | Err(error: MapError)

  datatype MapError =
    | InvalidPoolFormat
    | OtherFamily
    | PrefixTooLong
    | PrefixTooShort
    | SizeOutOfRange
    | NoAvailableBlocks(size: nat)
    | InnerMarkFailed

  datatype MarkOutcome = Marked | InvalidFormat | NotInPool | AlreadyAllocated

  // ---------------------------------------------------------------- specification

  /** The pools for which a bitmap can be built. */
  predicate PoolOk(pool: Cidr) {
    pool.V4? && 12 <= pool.len <= 28
  }

  /** `contains` looks at the network address of `c` only. */
  predicate Starts(pool: Cidr, c: Cidr) {
    c.V4? && Has(pool, Network(c))
  }

  /** The bits of a run of addresses. */
  function Span(start: int, n: nat): (r: set<int>)
    ensures forall i :: i in r <==> start <= i < start + n
  {
    if n == 0 then {} else Span(start, n - 1) + {start + n - 1}
  }

  /** The bits of `c` relative to the first address of the pool. */
  function BitsOf(pool: Cidr, c: Cidr): set<int>
    requires pool.V4? && c.V4?
  {
    Span(Network(c) - Network(pool), Size(c))
  }

  predicate Free(bits: set<int>, start: int, n: nat) {
    forall i :: start <= i < start + n ==> i !in bits
  }

  function OutcomeOfMark(pool: Cidr, bits: set<int>, c: Cidr): MarkOutcome
    requires pool.V4?
  {
    if c.Foreign? && !c.parses then InvalidFormat
    else if !Starts(pool, c) then NotInPool
    else if BitsOf(pool, c) !! bits then Marked
    else AlreadyAllocated
  }

  function Mark(pool: Cidr, bits: set<int>, c: Cidr): (r: set<int>)
    requires pool.V4?
    ensures bits <= r
  {
    if OutcomeOfMark(pool, bits, c).Marked? then bits + BitsOf(pool, c) else bits
  }

  function BlockBits(size: nat): nat
    requires size <= 32
  {
    Pow2(32 - size)
  }

  /** The number of /size blocks in a pool; none when the pool is smaller than a block. */
  function TotalBlocks(pool: Cidr, size: nat): nat
    requires pool.V4?
  {
    TruncPow2(size - pool.len)
  }

  /** The lowest free block at index `from` or later, or `total` when there is none. */
  function FirstFree(bits: set<int>, block: nat, from: nat, total: nat): (i: nat)
    requires from <= total
    ensures from <= i <= total
    ensures forall j :: from <= j < i ==> !Free(bits, j * block, block)
    ensures i < total ==> Free(bits, i * block, block)
    decreases total - from
  {
    if from == total || Free(bits, from * block, block) then from
    else FirstFree(bits, block, from + 1, total)
  }

  /** The number of free blocks among the first `n`. */
  ghost function FreeCount(bits: set<int>, block: nat, n: nat): (r: nat)
    ensures r <= n
  {
    if n == 0 then 0
    else FreeCount(bits, block, n - 1) + (if Free(bits, (n - 1) * block, block) then 1 else 0)
  }

  function BlockAt(pool: Cidr, size: nat, i: nat): (c: Cidr)
    requires PoolOk(pool) && pool.len <= size <= 32 && i < TotalBlocks(pool, size)
    ensures c.V4? && c.len == size && Network(c) == c.addr == Network(pool) + i * BlockBits(size)
    ensures Within(c, pool) && Starts(pool, c)
    ensures BitsOf(pool, c) == Span(i * BlockBits(size), BlockBits(size))
  {
    BlockFits(pool, size, i);
    var c := V4(Network(pool) + i * BlockBits(size), size);
    assert Network(c) == c.addr;
    c
  }

  // ---------------------------------------------------------------- lemmas

  lemma BlockFits(pool: Cidr, size: nat, i: nat)
    requires pool.V4? && pool.len <= size <= 32 && i < TotalBlocks(pool, size)
    ensures TotalBlocks(pool, size) * BlockBits(size) == Size(pool)
    ensures i * BlockBits(size) + BlockBits(size) <= Size(pool)
    ensures Network(pool) + i * BlockBits(size) < ADDRESSES
    ensures (Network(pool) + i * BlockBits(size)) % BlockBits(size) == 0
  {
    var b := BlockBits(size);
    Pow2Add(size - pool.len, 32 - size);
    MulStep(b, i, TotalBlocks(pool, size));
    EndInSpace(pool);
    NetworkAligned(pool, 32 - size);
    MultipleMod(b, i);
    SumAligned(Network(pool), i * b, b);
  }

  /** The first-fit index is below the block total exactly when the free count is positive. */
  lemma {:induction false} FirstFreeIffCount(bits: set<int>, block: nat, n: nat)
    ensures FirstFree(bits, block, 0, n) < n <==> FreeCount(bits, block, n) > 0
  {
    if FreeCount(bits, block, n) == 0 {
      CountZero(bits, block, n);
    } else {
      var j := CountPositive(bits, block, n);
    }
  }

  lemma {:induction false} CountZero(bits: set<int>, block: nat, n: nat)
    requires FreeCount(bits, block, n) == 0
    ensures forall j :: 0 <= j < n ==> !Free(bits, j * block, block)
  {
    if n > 0 { CountZero(bits, block, n - 1); }
  }

  lemma {:induction false} CountPositive(bits: set<int>, block: nat, n: nat) returns (j: nat)
    requires FreeCount(bits, block, n) > 0
    ensures j < n && Free(bits, j * block, block)
  {
    if Free(bits, (n - 1) * block, block) { j := n - 1; } else { j := CountPositive(bits, block, n - 1); }
  }

  // ---------------------------------------------------------------- the class

  class CIDRMap {
    const baseIP: seq<Byte>
    const prefixLen: nat
    var bits: set<int>

    ghost predicate Valid() {
      && |baseIP| == 4
      && FromBytes(baseIP) < ADDRESSES
      && 12 <= prefixLen <= 28
      && Network(V4(FromBytes(baseIP), prefixLen)) == FromBytes(baseIP)
    }

    ghost function Pool(): (p: Cidr)
      requires Valid()
      ensures PoolOk(p)
    {
      V4(FromBytes(baseIP), prefixLen)
    }

    constructor (pool: Cidr)
      requires PoolOk(pool)
      ensures Valid() && Pool() == V4(Network(pool), pool.len)
      ensures bits == {}
    {
      baseIP := ToBytes(4, Network(pool));
      prefixLen := pool.len;
      bits := {};
      new;
      Pow2Values();
      BytesRoundTrip(4, Network(pool));
      MaskTwice(pool);
    }

    method ByteOffset(ip: seq<Byte>) returns (offset: nat)
      requires Valid() && |ip| == 4
      ensures offset == SubDroppingBorrow(ip, baseIP)
    {
      offset := 0;
      for i := 0 to 4
        invariant offset == SubDroppingBorrow(ip[..i], baseIP[..i])
      {
        assert ip[..i + 1][..i] == ip[..i] && baseIP[..i + 1][..i] == baseIP[..i];
        var byte: int := ip[i];
        offset := offset * 256 + (byte - baseIP[i]) % 256;
      }
      assert ip[..4] == ip && baseIP[..4] == baseIP;
    }

    method GetBitRange(c: Cidr) returns (start: nat, size: nat)
      requires Valid() && Starts(Pool(), c)
      ensures start == Network(c) - Network(Pool()) && size == Size(c)
    {
      var ip := ToBytes(4, Network(c));
      start := ByteOffset(ip);
      size := Pow2(32 - c.len);
      OffsetOfAddress(Pool(), Network(c), ip, baseIP);
    }

    method IsFree(start: nat, n: nat) returns (free: bool)
      ensures free <==> Free(bits, start, n)
    {
      for i := 0 to n
        invariant Free(bits, start, i)
      {
        if start + i in bits { return false; }
      }
      return true;
    }

    method MarkAllocated(c: Cidr) returns (r: MarkOutcome)
      requires Valid()
      modifies this`bits
      ensures r == OutcomeOfMark(Pool(), old(bits), c)
      ensures bits == Mark(Pool(), old(bits), c)
      ensures r.InvalidFormat? <==> !Parses(c)
      ensures r.NotInPool? <==> Parses(c) && !(c.V4? && Has(Pool(), Network(c)))
      ensures r.AlreadyAllocated? <==>
                c.V4? && Has(Pool(), Network(c)) && exists i :: i in old(bits) && i in BitsOf(Pool(), c)
      ensures bits == if r.Marked? then old(bits) + BitsOf(Pool(), c) else old(bits)
    {
      if c.Foreign? { return if c.parses then NotInPool else InvalidFormat; }
      ContainsIsMembership(Pool(), Network(c));
      if !NetContains(V4(FromBytes(baseIP), prefixLen), Network(c)) { return NotInPool; }
      var start, size := GetBitRange(c);
      var free := IsFree(start, size);
      if !free { return AlreadyAllocated; }
      for i := 0 to size
        invariant bits == old(bits) + Span(start, i)
      {
        bits := bits + {start + i};
      }
      return Marked;
    }

    /** First-fit exactness: out of range sizes are refused, the lowest free aligned block is
        returned and exactly its bits are set, and the failure of the inner `MarkAllocated`
        call is never reported. */
    method AllocateNextAvailable(size: nat) returns (r: Result<Cidr>)
      requires Valid()
      modifies this`bits
      ensures !(16 <= size <= 28) ==> r == Err(SizeOutOfRange) && bits == old(bits)
      ensures 16 <= size <= 28 ==>
                var total := TotalBlocks(Pool(), size);
                var i := FirstFree(old(bits), BlockBits(size), 0, total);
                && (r.Ok? <==> FreeCount(old(bits), BlockBits(size), total) > 0)
                && (i < total ==> r == Ok(BlockAt(Pool(), size, i))
                                  && bits == old(bits) + BitsOf(Pool(), r.value))
                && (i == total ==> r == Err(NoAvailableBlocks(size)) && bits == old(bits))
    {
      if size < MIN_SIZE || size > MAX_SIZE { return Err(SizeOutOfRange); }
      var block := Pow2(32 - size);
      var total := TruncPow2(size - prefixLen);
      FirstFreeIffCount(bits, block, total);
      var i := FindFree(block, total);
      if i == total { return Err(NoAvailableBlocks(size)); }
      var cidr := BlockCidr(size, i);
      var m := MarkAllocated(cidr);
      if !m.Marked? { return Err(InnerMarkFailed); }
      return Ok(cidr);
    }

    method FindFree(block: nat, total: nat) returns (i: nat)
      ensures i == FirstFree(bits, block, 0, total)
    {
      i := 0;
      while i < total
        invariant i <= total
        invariant FirstFree(bits, block, 0, total) == FirstFree(bits, block, i, total)
      {
        var free := IsFree(i * block, block);
        if free { return; }
        i := i + 1;
      }
    }

    method BlockCidr(size: nat, i: nat) returns (c: Cidr)
      requires Valid() && prefixLen <= size <= 32 && i < TotalBlocks(Pool(), size)
      ensures c == BlockAt(Pool(), size, i)
    {
      var ip := AddOffset(i * Pow2(32 - size));
      BlockAddress(Pool(), baseIP, size, i);
      c := V4(FromBytes(ip), size);
    }

    method AddOffset(offset: nat) returns (ip: seq<Byte>)
      requires Valid()
      ensures ip == AddDroppingCarry(baseIP, offset)
    {
      var a := new Byte[4](i requires 0 <= i < 4 => baseIP[i]);
      var rest := offset;
      var j := 4;
      assert baseIP[..4] == baseIP;
      while j > 0
        invariant 0 <= j <= 4
        invariant forall i :: 0 <= i < j ==> a[i] == baseIP[i]
        invariant AddDroppingCarry(baseIP, offset) == AddDroppingCarry(baseIP[..j], rest) + a[j..]
      {
        j := j - 1;
        ghost var done := a[j + 1..];
        assert baseIP[..j + 1][..j] == baseIP[..j];
        a[j] := (a[j] + rest % 256) % 256;
        assert a[j..] == [a[j]] + done;
        rest := rest / 256;
      }
      ip := a[..];
    }

    method CountFree(block: nat, total: nat) returns (freeCount: nat)
      ensures freeCount == FreeCount(bits, block, total)
    {
      freeCount := 0;
      for i := 0 to total
        invariant freeCount == FreeCount(bits, block, i)
      {
        var free := IsFree(i * block, block);
        if free { freeCount := freeCount + 1; }
      }
    }

    method GetFreeBlockCount() returns (counts: map<nat, nat>)
      requires Valid()
      ensures forall s: nat :: s in counts <==> 16 <= s <= 28
      ensures forall s: nat :: s in counts ==> counts[s] == FreeCount(bits, BlockBits(s), TotalBlocks(Pool(), s))
    {
      counts := map[];
      for size := MIN_SIZE to MAX_SIZE + 1
        invariant forall s: nat :: s in counts <==> MIN_SIZE <= s < size
        invariant forall s: nat :: s in counts ==> counts[s] == FreeCount(bits, BlockBits(s), TotalBlocks(Pool(), s))
      {
        var freeCount := CountFree(Pow2(32 - size), TruncPow2(size - prefixLen));
        counts := counts[size := freeCount];
      }
    }
  }

  lemma MaskTwice(pool: Cidr)
    requires pool.V4?
    ensures Network(V4(Network(pool), pool.len)) == Network(pool)
  {
    NetworkAligned(pool, 32 - pool.len);
  }

  /** Inside the pool the byte-wise difference to the base address is the offset. */
  lemma OffsetOfAddress(pool: Cidr, a: Address, ip: seq<Byte>, base: seq<Byte>)
    requires pool.V4? && Has(pool, a) && |base| == 4 && FromBytes(base) == Network(pool)
    requires ip == ToBytes(4, a)
    ensures SubDroppingBorrow(ip, base) == a - Network(pool)
  {
    Pow2Values();
    BytesRoundTrip(4, a);
    NetworkAligned(pool, 32 - pool.len);
    SubIsSubtraction(ip, base, 32 - pool.len);
  }

  /** Adding the offset of a block byte by byte gives its address. */
  lemma BlockAddress(pool: Cidr, base: seq<Byte>, size: nat, i: nat)
    requires PoolOk(pool) && pool.len <= size <= 32 && i < TotalBlocks(pool, size)
    requires |base| == 4 && FromBytes(base) == Network(pool)
    ensures FromBytes(AddDroppingCarry(base, i * BlockBits(size))) == BlockAt(pool, size, i).addr
  {
    var o, k := i * BlockBits(size), 32 - pool.len;
    assert FromBytes(base) % Pow2(k) == 0 && o < Pow2(k) by { OffsetIsBlock(pool, size, i); }
    AddIsAddition(base, k, o);
    assert BlockAt(pool, size, i).addr == Network(pool) + o;
  }

  lemma OffsetIsBlock(pool: Cidr, size: nat, i: nat)
    requires PoolOk(pool) && pool.len <= size <= 32 && i < TotalBlocks(pool, size)
    ensures i * BlockBits(size) < Size(pool) && Network(pool) % Size(pool) == 0
  {
    BlockFits(pool, size, i);
    NetworkAligned(pool, 32 - pool.len);
  }

  method NewCIDRMap(pool: Cidr) returns (r: Result<CIDRMap>)
    ensures r.Ok? <==> pool.V4? && 12 <= pool.len <= 28
    ensures r.Ok? ==> fresh(r.value) && r.value.Valid() && r.value.bits == {}
                      && r.value.Pool() == V4(Network(pool), pool.len)
    ensures r.Err? ==> r.error == if pool.Foreign? then (if pool.parses then OtherFamily else InvalidPoolFormat)
                                  else if pool.len > 28 then PrefixTooLong else PrefixTooShort
  {
    if pool.Foreign? { return Err(if pool.parses then OtherFamily else InvalidPoolFormat); }
    if pool.len > 28 { return Err(PrefixTooLong); }
    if pool.len < 12 { return Err(PrefixTooShort); }
    var m := new CIDRMap(pool);
    return Ok(m);
  }
}
