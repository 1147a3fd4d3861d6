/** Choosing a CIDR for a claim: the first-fit search over a set of used CIDRs, and the checks on an
    explicitly requested one. */
module Allocator {
  import opened Powers
  import opened Cidrs
  import opened Bitmap
  import opened MarkOrder
  import NetUtil

  datatype Option<+T> = None | Some(value: T)

  datatype Subnet = Subnet(poolRef: string, cidr: Cidr, clusterID: string)

  const NO_SUBNET: Subnet := Subnet("", Foreign("", false, 0), "")

  datatype Pool = Pool(cidr: Cidr, defaultBlockSize: nat, minBlockSize: nat, maxBlockSize: nat)

  /** Zero stands for an absent block size. */
  datatype ClaimSpec = ClaimSpec(poolRef: string, clusterID: string, blockSize: nat, requested: Option<Cidr>)

  datatype AllocError =
    | ExhaustedError(message: string)
    | ConflictError(message: string)
    | PlainError(message: string)

  datatype Outcome = Allocated(cidr: Cidr) | Refused(error: AllocError)

  // ---------------------------------------------------------------- dynamic allocation

  function Mask(pool: Cidr): (m: Cidr)
    requires pool.V4?
    ensures m.V4? && m.len == pool.len && Network(m) == m.addr == Network(pool) && Size(m) == Size(pool)
    ensures PoolOk(pool) ==> PoolOk(m)
  {
    MaskTwice(pool);
    V4(Network(pool), pool.len)
  }

  function PoolError(pool: Cidr): MapError {
    if pool.Foreign? then (if pool.parses then OtherFamily else InvalidPoolFormat)
    else if pool.len > 28 then PrefixTooLong else PrefixTooShort
  }

  /** What `AllocateNextAvailable` answers on a bitmap. */
  function Available(pool: Cidr, size: nat, bits: set<int>): Result<Cidr>
    requires PoolOk(pool)
  {
    if !(MIN_SIZE <= size <= MAX_SIZE) then Err(SizeOutOfRange)
    else
      var i := FirstFree(bits, BlockBits(size), 0, TotalBlocks(pool, size));
      if i < TotalBlocks(pool, size) then Ok(BlockAt(pool, size, i)) else Err(NoAvailableBlocks(size))
  }

  /** What `findAvailableCIDR` answers when its map iteration visits the used CIDRs in `order`. */
  function AvailableAfter(pool: Cidr, size: nat, order: seq<Cidr>): Result<Cidr> {
    if !PoolOk(pool) then Err(PoolError(pool))
    else Available(Mask(pool), size, MarkAll(Mask(pool), order))
  }

  /** `findAvailableCIDR`: the used CIDRs are marked in any order the map iteration yields, ignoring
      errors, and the next available block is taken. */
  method FindAvailableCIDR(pool: Cidr, size: nat, used: set<Cidr>) returns (r: Result<Cidr>)
    ensures exists order :: Lists(order, used) && r == AvailableAfter(pool, size, order)
  {
    var made := NewCIDRMap(pool);
    ghost var order: seq<Cidr> := [];
    var rest := used;
    if made.Err? {
      order := SomeOrder(used);
      return Err(made.error);
    }
    var m := made.value;
    while rest != {}
      invariant m.bits == MarkAll(m.Pool(), order)
      invariant rest <= used && Lists(order, used - rest)
      decreases rest
    {
      var c :| c in rest;
      ListsConcat(order, used - rest, [c], {c});
      assert used - rest + {c} == used - (rest - {c});
      ghost var next := order + [c];
      assert next[..|next| - 1] == order;
      var _ := m.MarkAllocated(c);
      order := next;
      rest := rest - {c};
    }
    assert used - rest == used;
    r := m.AllocateNextAvailable(size);
  }

  /** The /size blocks of the pool, in address order, against the used CIDRs that start in the pool. */
  predicate BlockClear(pool: Cidr, size: nat, used: set<Cidr>, i: nat)
    requires PoolOk(pool) && pool.len <= size <= 32 && i < TotalBlocks(pool, size)
  {
    forall u :: u in used && Starts(pool, u) ==> Disjoint(BlockAt(pool, size, i), u)
  }

  lemma BlockFreeIffClear(pool: Cidr, size: nat, used: set<Cidr>, bits: set<int>, i: nat)
    requires PoolOk(pool) && pool.len <= size <= 32 && i < TotalBlocks(pool, size)
    requires IsUnion(pool, used, bits)
    ensures Free(bits, i * BlockBits(size), BlockBits(size)) <==> BlockClear(pool, size, used, i)
  {
    var b := BlockAt(pool, size, i);
    if BlockClear(pool, size, used, i) {
      forall k | k in BitsOf(pool, b) ensures k !in bits {
        forall u | u in used ensures !Covers(pool, u, k) {
          assert Starts(pool, u) ==> Disjoint(b, u);
        }
      }
    } else {
      var u :| u in used && Starts(pool, u) && !Disjoint(b, u);
      var a := if Network(b) <= Network(u) then Network(u) else Network(b);
      assert Covers(pool, u, a - Network(pool));
      assert a - Network(pool) in bits;
    }
  }

  /** First fit over a tiled used set: whatever the map order, the answer is the lowest block of the
      pool that meets no used CIDR starting in it, or exhaustion when every block meets one. */
  lemma FirstFit(pool: Cidr, size: nat, used: set<Cidr>, order: seq<Cidr>)
    requires PoolOk(pool) && MIN_SIZE <= size <= MAX_SIZE && Lists(order, used) && Tiled(Mask(pool), used)
    ensures var m, r := Mask(pool), AvailableAfter(pool, size, order);
            match r
            case Ok(c) =>
              size >= m.len && exists i: nat ::
                && i < TotalBlocks(m, size) && c == BlockAt(m, size, i) && BlockClear(m, size, used, i)
                && forall j: nat :: j < i ==> !BlockClear(m, size, used, j)
            case Err(e) =>
              && e == NoAvailableBlocks(size)
              && (size >= m.len ==> forall j: nat :: j < TotalBlocks(m, size) ==> !BlockClear(m, size, used, j))
  {
    var m := Mask(pool);
    var bits := MarkAll(m, order);
    TiledGivesUnion(m, order);
    var total := TotalBlocks(m, size);
    var i := FirstFree(bits, BlockBits(size), 0, total);
    if size >= m.len {
      forall j: nat | j < total
        ensures Free(bits, j * BlockBits(size), BlockBits(size)) <==> BlockClear(m, size, used, j)
      {
        BlockFreeIffClear(m, size, used, bits, j);
      }
      if i < total { assert BlockClear(m, size, used, i); }
    }
  }

  /** When the search is repeated with more CIDRs in use, it answers the same block exactly when that block is clear of
      every CIDR now in use that starts in the pool. */
  lemma SameAnswerIffClear(
    pool: Cidr, size: nat, used: set<Cidr>, order: seq<Cidr>, used': set<Cidr>, order': seq<Cidr>)
    requires PoolOk(pool) && Lists(order, used) && Lists(order', used') && used <= used'
    requires Tiled(Mask(pool), used) && Tiled(Mask(pool), used')
    ensures var r := AvailableAfter(pool, size, order);
            r.Ok? ==> (AvailableAfter(pool, size, order') == r <==>
                       forall u :: u in used' && Starts(Mask(pool), u) ==> Disjoint(r.value, u))
  {
    var m, r := Mask(pool), AvailableAfter(pool, size, order);
    if r.Ok? {
      FirstFit(pool, size, used, order);
      FirstFit(pool, size, used', order');
      var i: nat :| i < TotalBlocks(m, size) && r.value == BlockAt(m, size, i) && BlockClear(m, size, used, i)
                    && forall j: nat :: j < i ==> !BlockClear(m, size, used, j);
      forall j: nat | j < i ensures !BlockClear(m, size, used', j) {
        assert !BlockClear(m, size, used, j);
      }
      assert BlockClear(m, size, used', i) <==> forall u :: u in used' && Starts(m, u) ==> Disjoint(r.value, u);
      LowestClear(m, size, used', order', i);
    }
  }

  /** An answer is the lowest clear block. */
  lemma LowestClear(pool: Cidr, size: nat, used: set<Cidr>, order: seq<Cidr>, i: nat)
    requires PoolOk(pool) && Mask(pool) == pool && MIN_SIZE <= size <= MAX_SIZE && pool.len <= size
    requires Lists(order, used) && Tiled(pool, used) && i < TotalBlocks(pool, size)
    requires forall j: nat :: j < i ==> !BlockClear(pool, size, used, j)
    ensures AvailableAfter(pool, size, order) == Ok(BlockAt(pool, size, i)) <==> BlockClear(pool, size, used, i)
  {
    FirstFit(pool, size, used, order);
  }

  /** A CIDR that reaches into the pool from below; `contains` overlooks it. */
  predicate Straddles(pool: Cidr, u: Cidr) {
    pool.V4? && u.V4? && !Starts(pool, u) && !Disjoint(u, pool)
  }

  /** The block found is disjoint from every used CIDR exactly when none of them straddles the pool's start. */
  lemma FoundIsDisjoint(pool: Cidr, size: nat, used: set<Cidr>, order: seq<Cidr>)
    requires PoolOk(pool) && Lists(order, used) && Tiled(Mask(pool), used)
    ensures var r := AvailableAfter(pool, size, order);
            r.Ok? ==>
              var c := r.value;
              && c.V4? && c.len == size && c.addr == Network(c) && Within(c, pool)
              && ((forall u :: u in used ==> Disjoint(c, u)) <==> !exists u :: u in used && Straddles(pool, u))
  {
    var m, r := Mask(pool), AvailableAfter(pool, size, order);
    if r.Ok? {
      FirstFit(pool, size, used, order);
      forall u | u in used ensures Disjoint(r.value, u) <==> !Straddles(pool, u) {
        if u.V4? {
          assert Starts(pool, u) == Starts(m, u);
          Laminar(u, pool);
        }
      }
    }
  }

  lemma OverlooksStraddler(pool: Cidr, size: nat, u: Cidr)
    requires PoolOk(pool) && MIN_SIZE <= size <= MAX_SIZE && pool.len <= size && Straddles(pool, u) && Within(pool, u)
    ensures exists c :: AvailableAfter(pool, size, [u]) == Ok(c) && !Disjoint(c, u)
  {
    var m := Mask(pool);
    assert MarkAll(m, [u]) == Mark(m, MarkAll(m, []), u) == {} by { assert [u][..0] == []; }
    assert Free({}, 0 * BlockBits(size), BlockBits(size));
    assert AvailableAfter(pool, size, [u]) == Ok(BlockAt(m, size, 0));
  }

  /** A failing input: with 10.0.0.0/8 in use, the pool 10.1.0.0/16 still offers a block of it. */
  lemma StraddlingOverlooked(pool: Cidr, u: Cidr)
    requires pool == V4(0x0A01_0000, 16) && u == V4(0x0A00_0000, 8)
    ensures Straddles(pool, u) && exists c :: AvailableAfter(pool, 24, [u]) == Ok(c) && !Disjoint(c, u)
  {
    TenSlash(u);
    assert Size(pool) == 0x1_0000 && Size(u) == 0x100_0000 by { Pow2Values(); Pow2Add(8, 8); Pow2Add(16, 8); }
    assert Network(pool) == 0x0A01_0000;
    OverlooksStraddler(pool, 24, u);
  }

  lemma InnerShape(pool: Cidr, size: nat, d: Cidr, e: Cidr)
    requires PoolOk(pool) && Network(pool) == pool.addr && pool.len < size <= 32
    requires d == V4(pool.addr, size - 1) && e == V4(pool.addr, size)
    ensures Network(d) == Network(e) == pool.addr && Size(d) == 2 * Size(e) && Within(d, pool)
  {
    SameStart(pool, d);
    SameStart(pool, e);
    assert Size(d) <= Size(pool) by {
      if pool.len < size - 1 { Pow2Grows(33 - size, 32 - pool.len); }
    }
  }

  lemma SameStart(pool: Cidr, c: Cidr)
    requires pool.V4? && c.V4? && Network(pool) == pool.addr == c.addr && pool.len <= c.len
    ensures Network(c) == pool.addr
  {
    NetworkAligned(pool, 32 - c.len);
  }

  /** With the halves of a block visited from the inside out, the block itself is not marked. */
  lemma InnerFirst(pool: Cidr, size: nat, d: Cidr, e: Cidr)
    requires PoolOk(pool) && Network(pool) == pool.addr && pool.len < size <= 32
    requires d == V4(pool.addr, size - 1) && e == V4(pool.addr, size)
    ensures MarkAll(pool, [e, d]) == Span(0, BlockBits(size))
  {
    InnerShape(pool, size, d, e);
    MarkOne(pool, e);
    assert [e, d][..1] == [e];
    assert 0 in BitsOf(pool, e) && 0 in BitsOf(pool, d);
  }

  /** A failing input in every pool and for every size: with the first block d of the next larger size in use, and its
      lower half e as well, a map order that visits e first makes the search answer the upper half of d, although
      nothing straddles the start of the pool. */
  lemma NestedAnswerOverlaps(pool: Cidr, size: nat, d: Cidr, e: Cidr)
    requires PoolOk(pool) && Network(pool) == pool.addr && pool.len < size && MIN_SIZE <= size <= MAX_SIZE
    requires d == V4(pool.addr, size - 1) && e == V4(pool.addr, size)
    ensures Lists([e, d], {d, e}) && !Straddles(pool, d) && !Straddles(pool, e)
    ensures exists c :: AvailableAfter(pool, size, [e, d]) == Ok(c) && !Disjoint(c, d)
  {
    InnerShape(pool, size, d, e);
    InnerFirst(pool, size, d, e);
    SecondBlock(pool, size, MarkAll(pool, [e, d]));
    assert Mask(pool) == pool;
    assert Elements([e, d]) == {d, e};
    var c := BlockAt(pool, size, 1);
    assert Network(c) == pool.addr + Size(e) && End(d) == pool.addr + 2 * Size(e);
    assert AvailableAfter(pool, size, [e, d]) == Ok(c) && !Disjoint(c, d);
  }

  /** With exactly the first block in use, the search answers the second. */
  lemma SecondBlock(pool: Cidr, size: nat, bits: set<int>)
    requires PoolOk(pool) && pool.len < size && MIN_SIZE <= size <= MAX_SIZE && bits == Span(0, BlockBits(size))
    ensures TotalBlocks(pool, size) > 1 && Available(pool, size, bits) == Ok(BlockAt(pool, size, 1))
  {
    var b, total := BlockBits(size), TotalBlocks(pool, size);
    Pow2Grows(0, size - pool.len);
    assert 0 in bits && !Free(bits, 0 * b, b) && Free(bits, 1 * b, b);
    assert FirstFree(bits, b, 0, total) == FirstFree(bits, b, 1, total) == 1;
  }

  // ---------------------------------------------------------------- capacity

  /** The search answers `c`, in some map order, when the CIDRs of `prior` are in use. */
  ghost predicate Answers(pool: Cidr, size: nat, prior: seq<Cidr>, c: Cidr) {
    exists order :: Lists(order, Elements(prior)) && AvailableAfter(pool, size, order) == Ok(c)
  }

  /** Each result is an answer of the search when the earlier results are in use. */
  ghost predicate FillRun(pool: Cidr, size: nat, results: seq<Cidr>) {
    forall k :: 0 <= k < |results| ==> Answers(pool, size, results[..k], results[k])
  }

  predicate IsBlock(pool: Cidr, size: nat, k: nat, c: Cidr)
    requires PoolOk(pool)
  {
    pool.len <= size <= 32 && k < TotalBlocks(pool, size) && c == BlockAt(pool, size, k)
  }

  /** The results are the lowest blocks of the pool, in address order. */
  ghost predicate FirstBlocks(pool: Cidr, size: nat, results: seq<Cidr>)
    requires PoolOk(pool)
  {
    && |results| <= TotalBlocks(pool, size)
    && forall k :: 0 <= k < |results| ==> IsBlock(pool, size, k, results[k])
  }

  lemma BlocksDisjoint(pool: Cidr, size: nat, i: nat, j: nat)
    requires PoolOk(pool) && pool.len <= size <= 32 && i < j < TotalBlocks(pool, size)
    ensures Disjoint(BlockAt(pool, size, i), BlockAt(pool, size, j))
  {
    MulStep(BlockBits(size), i, j);
  }

  /** With the first k blocks in use, the next answer is block k, or exhaustion after the last one. */
  lemma NextBlock(pool: Cidr, size: nat, results: seq<Cidr>, order: seq<Cidr>)
    requires PoolOk(pool) && MIN_SIZE <= size <= MAX_SIZE && FirstBlocks(Mask(pool), size, results)
    requires Lists(order, Elements(results))
    ensures var m, k := Mask(pool), |results|;
            AvailableAfter(pool, size, order) ==
            if k < TotalBlocks(m, size) then Ok(BlockAt(m, size, k)) else Err(NoAvailableBlocks(size))
  {
    var m, used := Mask(pool), Elements(results);
    FirstBlocksDisjoint(m, size, results);
    DisjointIsTiled(m, used);
    FirstFit(pool, size, used, order);
    if size >= m.len {
      ClearFromK(m, size, results);
      if |results| < TotalBlocks(m, size) { assert BlockClear(m, size, used, |results|); }
    }
  }

  lemma FirstBlocksDisjoint(pool: Cidr, size: nat, results: seq<Cidr>)
    requires PoolOk(pool) && FirstBlocks(pool, size, results)
    ensures PairwiseDisjoint(Elements(results))
  {
    var used := Elements(results);
    forall c, d | c in used && d in used && c != d ensures Disjoint(c, d) {
      var i :| 0 <= i < |results| && results[i] == c;
      var j :| 0 <= j < |results| && results[j] == d;
      PairDisjoint(pool, size, i, c, j, d);
    }
  }

  lemma PairDisjoint(pool: Cidr, size: nat, i: nat, c: Cidr, j: nat, d: Cidr)
    requires PoolOk(pool) && IsBlock(pool, size, i, c) && IsBlock(pool, size, j, d) && c != d
    ensures Disjoint(c, d)
  {
    if i < j { BlocksDisjoint(pool, size, i, j); }
    if j < i { BlocksDisjoint(pool, size, j, i); }
  }

  lemma ClearFromK(pool: Cidr, size: nat, results: seq<Cidr>)
    requires PoolOk(pool) && pool.len <= size <= 32 && FirstBlocks(pool, size, results)
    ensures forall j: nat :: j < TotalBlocks(pool, size) ==>
              (BlockClear(pool, size, Elements(results), j) <==> j >= |results|)
  {
    forall j: nat | j < TotalBlocks(pool, size)
      ensures BlockClear(pool, size, Elements(results), j) <==> j >= |results|
    {
      if j < |results| {
        assert results[j] in Elements(results) && !Disjoint(results[j], results[j]);
      } else {
        forall u | u in Elements(results) ensures Disjoint(BlockAt(pool, size, j), u) {
          var i :| 0 <= i < |results| && results[i] == u;
          BlocksDisjoint(pool, size, i, j);
        }
      }
    }
  }

  lemma FillRunPrefix(pool: Cidr, size: nat, results: seq<Cidr>, n: nat)
    requires FillRun(pool, size, results) && n <= |results|
    ensures FillRun(pool, size, results[..n])
  {
    forall k | 0 <= k < n ensures Answers(pool, size, results[..n][..k], results[..n][k]) {
      assert results[..n][..k] == results[..k];
    }
  }

  lemma FirstBlocksExtend(pool: Cidr, size: nat, results: seq<Cidr>)
    requires PoolOk(pool) && results != []
    requires FirstBlocks(pool, size, results[..|results| - 1])
    requires IsBlock(pool, size, |results| - 1, results[|results| - 1])
    ensures FirstBlocks(pool, size, results)
  {
    var n := |results| - 1;
    forall k | 0 <= k < |results| ensures IsBlock(pool, size, k, results[k]) {
      if k < n { assert results[..n][k] == results[k]; }
    }
  }

  /** Capacity and order: from an empty pool every run of allocations at one size yields the blocks of the
      pool in address order, there are exactly `2^(size - prefix)` of them (none for a block larger than
      the pool), and then the search fails with an error that is classified as exhaustion. */
  lemma {:induction false} Capacity(pool: Cidr, size: nat, results: seq<Cidr>, order: seq<Cidr>)
    requires PoolOk(pool) && MIN_SIZE <= size <= MAX_SIZE && FillRun(pool, size, results)
    requires Lists(order, Elements(results))
    ensures FirstBlocks(Mask(pool), size, results)
    ensures |results| < TotalBlocks(Mask(pool), size) ==>
              AvailableAfter(pool, size, order) == Ok(BlockAt(Mask(pool), size, |results|))
    ensures |results| == TotalBlocks(Mask(pool), size) ==>
              AvailableAfter(pool, size, order) == Err(NoAvailableBlocks(size))
              && SelectionError(NoAvailableBlocks(size), size).ExhaustedError?
  {
    if results != [] {
      var n := |results| - 1;
      FillRunPrefix(pool, size, results, n);
      assert Answers(pool, size, results[..n], results[n]);
      var o :| Lists(o, Elements(results[..n])) && AvailableAfter(pool, size, o) == Ok(results[n]);
      Capacity(pool, size, results[..n], o);
      FirstBlocksExtend(Mask(pool), size, results);
    }
    NextBlock(pool, size, results, order);
  }

  // ---------------------------------------------------------------- requested CIDRs

  /** `net.ParseCIDR` as the overlap test sees it. */
  function ParseOf(c: Cidr): NetUtil.Parsed {
    if c.Foreign? then NetUtil.Invalid
    else
      V4IsMasked(c);
      NetUtil.Valid(NetUtil.Net(4, Network(c), c.len))
  }

  lemma V4IsMasked(c: Cidr)
    requires c.V4?
    ensures NetUtil.Masked(NetUtil.Net(4, Network(c), c.len))
  {
    Pow2Values();
    NetworkAligned(c, 32 - c.len);
  }

  lemma OverlapIsNotDisjoint(c: Cidr, d: Cidr)
    ensures NetUtil.CIDROverlaps(ParseOf(c), ParseOf(d)) <==> !Disjoint(c, d)
  {
    NetUtil.OverlapExact(ParseOf(c), ParseOf(d));
    if c.V4? && d.V4? {
      NetUtil.ShareAddressMeans(ParseOf(c).net, ParseOf(d).net);
      SharesIsNotDisjoint(c, d);
    }
  }

  lemma SharesIsNotDisjoint(c: Cidr, d: Cidr)
    requires c.V4? && d.V4?
    ensures NetUtil.ShareAddress(ParseOf(c).net, ParseOf(d).net) <==> !Disjoint(c, d)
  {
    assert NetUtil.Last(ParseOf(c).net) == End(c) - 1 && NetUtil.Last(ParseOf(d).net) == End(d) - 1;
  }

  /** `netutil.CalculateLastIP` on the masked network. */
  function LastAddress(c: Cidr): (a: Address)
    requires c.V4?
    ensures a == End(c) - 1
  {
    EndInSpace(c);
    NetUtil.Last(ParseOf(c).net)
  }

  function ValidateRequestedCIDR(requested: Cidr, pool: Cidr, existing: set<Subnet>): Outcome {
    if requested.Foreign? && !requested.parses then Refused(PlainError("invalid requested CIDR format"))
    else if requested.Foreign? || pool.Foreign? || !NetContains(pool, Network(requested)) then
      Refused(PlainError("network address outside pool"))
    else if !NetContains(pool, LastAddress(requested)) then Refused(PlainError("last address outside pool"))
    else if exists s :: s in existing && NetUtil.CIDROverlaps(ParseOf(requested), ParseOf(s.cidr)) then
      Refused(PlainError("overlaps with existing allocation"))
    else Allocated(requested)
  }

  /** Requested-CIDR exactness: accepted exactly when the whole range lies in the pool and meets no
      existing allocation, and then returned as it was written. */
  lemma RequestedExact(requested: Cidr, pool: Cidr, existing: set<Subnet>)
    ensures var r := ValidateRequestedCIDR(requested, pool, existing);
            && (r.Allocated? <==> Within(requested, pool) && forall s :: s in existing ==> Disjoint(requested, s.cidr))
            && (r.Allocated? ==> r.cidr == requested)
            && (r.Refused? ==> r.error.PlainError?)
  {
    if requested.V4? && pool.V4? {
      ContainsIsMembership(pool, Network(requested));
      ContainsIsMembership(pool, LastAddress(requested));
      forall s: Subnet
        ensures NetUtil.CIDROverlaps(ParseOf(requested), ParseOf(s.cidr)) <==> !Disjoint(requested, s.cidr)
      {
        OverlapIsNotDisjoint(requested, s.cidr);
      }
    }
  }

  // ---------------------------------------------------------------- candidate selection

  /** `handleCIDRSelectionError`. The source classifies by message text; the texts of the bitmap's
      errors are in one-to-one correspondence with the constructors. */
  function SelectionError(e: MapError, size: nat): (r: AllocError)
    ensures r.ExhaustedError? <==> e.NoAvailableBlocks?
    ensures !r.ConflictError? && r.message != ""
  {
    match e
    case NoAvailableBlocks(_) => ExhaustedError("failed to find available CIDR: pool exhausted")
    case PrefixTooLong | PrefixTooShort | InvalidPoolFormat => PlainError("invalid block size")
    case SizeOutOfRange | InnerMarkFailed | OtherFamily => PlainError("failed to find available CIDR")
  }

  function BlockSizeOf(claim: ClaimSpec, pool: Pool): nat {
    if claim.blockSize != 0 then claim.blockSize
    else if pool.defaultBlockSize != 0 then pool.defaultBlockSize
    else 24
  }

  /** `selectCandidateCIDR`, for a map iteration in `order`. */
  function SelectCandidate(claim: ClaimSpec, pool: Pool, order: seq<Cidr>, existing: set<Subnet>): Outcome {
    if claim.requested.Some? then ValidateRequestedCIDR(claim.requested.value, pool.cidr, existing)
    else
      var size := BlockSizeOf(claim, pool);
      match AvailableAfter(pool.cidr, size, order)
      case Ok(c) => Allocated(c)
      case Err(e) => Refused(SelectionError(e, size))
  }

  /** Whatever lists the allocator works from, a candidate is a CIDR inside the pool; a dynamic one is an
      aligned block of the claim's size, and a refusal is never a conflict. */
  lemma CandidateShape(claim: ClaimSpec, pool: Pool, order: seq<Cidr>, existing: set<Subnet>)
    ensures var r := SelectCandidate(claim, pool, order, existing);
            && (r.Allocated? ==> r.cidr.V4? && Within(r.cidr, pool.cidr))
            && (r.Allocated? && claim.requested.None? ==>
                  && r.cidr.len == BlockSizeOf(claim, pool) && Network(r.cidr) == r.cidr.addr
                  && MIN_SIZE <= r.cidr.len <= MAX_SIZE && pool.cidr.len <= r.cidr.len)
            && (r.Refused? ==> !r.error.ConflictError? && r.error.message != "")
  {
    if claim.requested.Some? { RequestedExact(claim.requested.value, pool.cidr, existing); }
  }

  /** Which block size a dynamic claim gets: the one it asks for; without one, the default of the pool; and without
      either, 24. */
  lemma SizeRules(claim: ClaimSpec, pool: Pool, order: seq<Cidr>, existing: set<Subnet>)
    requires claim.requested.None?
    ensures var r := SelectCandidate(claim, pool, order, existing);
            && (claim.blockSize != 0 && r.Allocated? ==> r.cidr.len == claim.blockSize)
            && (claim.blockSize == 0 && pool.defaultBlockSize != 0 ==>
                  r == SelectCandidate(claim.(blockSize := pool.defaultBlockSize), pool, order, existing))
            && (claim.blockSize == 0 && pool.defaultBlockSize == 0 ==>
                  r == SelectCandidate(claim.(blockSize := 24), pool, order, existing))
            && (r.Allocated? ==> 16 <= r.cidr.len <= 28)
  {
    CandidateShape(claim, pool, order, existing);
  }
}
