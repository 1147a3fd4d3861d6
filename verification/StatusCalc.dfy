/** Pool statistics: the exact bitmap count of `CalculatePoolStatus`, and the cheap formula of
    `statuscalc.Calculate` measured against it. */
module StatusCalc {
  import opened Powers
  import opened Cidrs
  import opened Bitmap
  import opened MarkOrder
  import opened Counting
  import opened Allocator

  // ---------------------------------------------------------------- the exact count

  /** Marking a CIDR again changes nothing, whether or not its first marking succeeded. */
  lemma MarkTwice(pool: Cidr, order: seq<Cidr>, c: Cidr)
    requires pool.V4? && c in order
    ensures Mark(pool, MarkAll(pool, order), c) == MarkAll(pool, order)
  {
    var k :| 0 <= k < |order| && order[k] == c;
    Monotone(pool, order, k);
    Monotone(pool, order, k + 1);
    assert order[..k + 1][..k] == order[..k];
    if Starts(pool, c) {
      assert Network(c) - Network(pool) in BitsOf(pool, c);
      assert MarkAll(pool, order[..k + 1]) == Mark(pool, MarkAll(pool, order[..k]), c);
    }
  }

  /** The CIDRs of a list whose network address lies in the pool. */
  function Counted(pool: Cidr, used: set<Cidr>): set<Cidr>
    requires pool.V4?
  {
    set c | c in used && Starts(pool, c)
  }

  datatype PoolStats = PoolStats(count: nat, free: map<nat, nat>)

  /** `CalculatePoolStatus`: the number of distinct CIDRs that start in the pool, overlapping or not, and the
      free counts of the bitmap on which the list was marked from left to right. */
  method CalculatePoolStatus(pool: Cidr, allocations: seq<Cidr>) returns (r: Result<PoolStats>)
    ensures r.Ok? <==> PoolOk(pool)
    ensures r.Ok? ==>
              && r.value.count == |Counted(Mask(pool), Elements(allocations))|
              && (forall s: nat :: s in r.value.free <==> MIN_SIZE <= s <= MAX_SIZE)
              && (forall s: nat :: s in r.value.free ==>
                    r.value.free[s] == FreeAt(Mask(pool), MarkAll(Mask(pool), allocations), s))
  {
    var made := NewCIDRMap(pool);
    if made.Err? { return Err(made.error); }
    var m := made.value;
    var unique: set<Cidr> := {};
    assert allocations[..0] == [];
    for i := 0 to |allocations|
      invariant m.bits == MarkAll(m.Pool(), allocations[..i])
      invariant unique == Counted(m.Pool(), Elements(allocations[..i]))
    {
      var c := allocations[i];
      Extend(m.Pool(), allocations, i);
      if c in unique {
        MarkTwice(m.Pool(), allocations[..i], c);
        continue;
      }
      unique := unique + {c};
      var outcome := m.MarkAllocated(c);
      if outcome.NotInPool? || outcome.InvalidFormat? { unique := unique - {c}; }
    }
    assert allocations[..|allocations|] == allocations;
    var free := m.GetFreeBlockCount();
    return Ok(PoolStats(|unique|, free));
  }

  lemma Extend(pool: Cidr, list: seq<Cidr>, i: nat)
    requires pool.V4? && i < |list|
    ensures MarkAll(pool, list[..i + 1]) == Mark(pool, MarkAll(pool, list[..i]), list[i])
    ensures Counted(pool, Elements(list[..i + 1]))
            == Counted(pool, Elements(list[..i])) + (if Starts(pool, list[i]) then {list[i]} else {})
  {
    assert list[..i + 1][..i] == list[..i];
    assert forall c :: c in list[..i + 1] <==> c in list[..i] || c == list[i];
  }

  /** The counts do not depend on the order or on repetitions of the list, if its CIDRs tile one another
      (in particular if they are disjoint); the number of CIDRs never does. */
  lemma StatusInvariant(pool: Cidr, list: seq<Cidr>, list': seq<Cidr>, s: nat)
    requires PoolOk(pool) && Elements(list) == Elements(list') && Tiled(pool, Elements(list)) && s <= 32
    ensures FreeAt(pool, MarkAll(pool, list), s) == FreeAt(pool, MarkAll(pool, list'), s)
  {
    TiledGivesUnion(pool, list);
    TiledGivesUnion(pool, list');
    SameUnion(pool, Elements(list), MarkAll(pool, list), MarkAll(pool, list'));
  }

  // ---------------------------------------------------------------- the cheap formula

  datatype CalcResult = CalcResult(
    allocatedCount: nat, freeCountBySize: map<string, nat>, allocatedCIDRs: map<Cidr, string>)

  const IPV6_BLOCKS: nat := 1_000_000

  /** `1 << (24 - ones)` on unsigned operands: zero for a pool narrower than a /24. Large IPv6 pools are capped. */
  function MaxBlocks(pool: Cidr): nat
    requires Parses(pool)
  {
    match pool
    case V4(_, len) => TruncPow2(24 - len)
    case Foreign(_, _, ones) => if ones < 64 then IPV6_BLOCKS else TruncPow2(24 - ones)
  }

  function CheapFree(pool: Cidr, taken: nat): nat
    requires Parses(pool)
  {
    if MaxBlocks(pool) < taken then 0 else MaxBlocks(pool) - taken
  }

  /** Later entries of the list win. */
  function ByCidr(allocations: seq<Subnet>): map<Cidr, string> {
    if allocations == [] then map[]
    else
      var last := allocations[|allocations| - 1];
      ByCidr(allocations[..|allocations| - 1])[last.cidr := last.clusterID]
  }

  /** Entry `i` is the last one with CIDR `c`. */
  predicate IsLast(allocations: seq<Subnet>, c: Cidr, i: nat) {
    && i < |allocations| && allocations[i].cidr == c
    && forall j :: i < j < |allocations| ==> allocations[j].cidr != c
  }

  /** The map has the CIDRs of the list, each with the cluster of its last entry. */
  lemma {:induction false} ByCidrExact(allocations: seq<Subnet>, c: Cidr)
    ensures c in ByCidr(allocations) <==> exists i: nat :: IsLast(allocations, c, i)
    ensures forall i: nat :: IsLast(allocations, c, i) ==> ByCidr(allocations)[c] == allocations[i].clusterID
    ensures c in ByCidr(allocations) <==> exists s :: s in allocations && s.cidr == c
  {
    if allocations != [] {
      var n := |allocations| - 1;
      var init := allocations[..n];
      ByCidrExact(init, c);
      assert allocations == init + [allocations[n]];
      if allocations[n].cidr == c {
        assert IsLast(allocations, c, n);
      } else {
        forall i: nat ensures IsLast(allocations, c, i) <==> IsLast(init, c, i) {
          LastKept(init, allocations[n], c, i);
        }
      }
    }
  }

  lemma LastKept(init: seq<Subnet>, s: Subnet, c: Cidr, i: nat)
    requires s.cidr != c
    ensures IsLast(init + [s], c, i) <==> IsLast(init, c, i)
  {
    var all := init + [s];
    assert forall j :: 0 <= j < |init| ==> all[j] == init[j];
    if IsLast(all, c, i) {
      forall j | i < j < |init| ensures init[j].cidr != c { assert all[j].cidr != c; }
    }
  }

  /** The keys are the CIDRs of the list and of the children; a child's is marked as such, and any other has the
      cluster of the last entry with that CIDR. */
  ghost predicate MapsLast(m: map<Cidr, string>, allocations: seq<Subnet>, children: seq<Cidr>) {
    && (forall c :: c in m <==> (exists s :: s in allocations && s.cidr == c) || c in children)
    && (forall c, i: nat :: IsLast(allocations, c, i) && c !in children ==>
          c in m && m[c] == allocations[i].clusterID)
    && (forall c :: c in children ==> m[c] == "child-pool")
  }

  lemma MapsLastByCidr(m: map<Cidr, string>, allocations: seq<Subnet>, children: seq<Cidr>)
    requires forall c :: c in m <==> c in ByCidr(allocations) || c in children
    requires forall c :: c in m ==> m[c] == if c in children then "child-pool" else ByCidr(allocations)[c]
    ensures MapsLast(m, allocations, children)
  {
    forall c ensures c in ByCidr(allocations) <==> exists s :: s in allocations && s.cidr == c {
      ByCidrExact(allocations, c);
    }
    forall c, i: nat | IsLast(allocations, c, i)
      ensures c in ByCidr(allocations) && ByCidr(allocations)[c] == allocations[i].clusterID
    {
      ByCidrExact(allocations, c);
    }
  }

  /** The status of a pool for a list of its Subnets; a pool whose CIDR does not parse has none. */
  function StatusOf(pool: Cidr, allocations: seq<Subnet>): Option<CalcResult> {
    if !Parses(pool) then None
    else
      var free := CheapFree(pool, |allocations|);
      Some(CalcResult(|allocations|, map["/24" := free, "24" := free], ByCidr(allocations)))
  }

  method Calculate(pool: Cidr, allocations: seq<Subnet>, childCIDRs: seq<Cidr>) returns (r: Option<CalcResult>)
    ensures childCIDRs == [] ==> r == StatusOf(pool, allocations)
    ensures r.Some? <==> Parses(pool)
    ensures r.Some? ==>
              && MapsLast(r.value.allocatedCIDRs, allocations, childCIDRs)
              && r.value.allocatedCount == |allocations| + |childCIDRs|
              && r.value.freeCountBySize.Keys == {"/24", "24"}
              && r.value.freeCountBySize["24"] == CheapFree(pool, r.value.allocatedCount)
              && r.value.freeCountBySize["/24"] == CheapFree(pool, r.value.allocatedCount)
    ensures pool.Foreign? && r.Some? ==>
              r.value.freeCountBySize["24"] ==
              if pool.ones < 64 && r.value.allocatedCount <= 1_000_000 then 1_000_000 - r.value.allocatedCount else 0
  {
    var total := |allocations| + |childCIDRs|;
    var cidrs: map<Cidr, string> := map[];
    for i := 0 to |allocations|
      invariant cidrs == ByCidr(allocations[..i])
    {
      assert allocations[..i + 1][..i] == allocations[..i];
      cidrs := cidrs[allocations[i].cidr := allocations[i].clusterID];
    }
    assert allocations[..|allocations|] == allocations;
    for i := 0 to |childCIDRs|
      invariant forall c :: c in cidrs <==> c in ByCidr(allocations) || c in childCIDRs[..i]
      invariant forall c :: c in cidrs ==>
                  cidrs[c] == if c in childCIDRs[..i] then "child-pool" else ByCidr(allocations)[c]
      invariant i == 0 ==> cidrs == ByCidr(allocations)
    {
      cidrs := cidrs[childCIDRs[i] := "child-pool"];
      assert forall c :: c in childCIDRs[..i + 1] <==> c in childCIDRs[..i] || c == childCIDRs[i];
    }
    assert childCIDRs[..|childCIDRs|] == childCIDRs;
    if !Parses(pool) { return None; }
    var maxBlocks := TruncPow2(24 - if pool.V4? then pool.len else pool.ones);
    if pool.Foreign? && pool.ones < 64 { maxBlocks := IPV6_BLOCKS; }
    var freeCount: int := maxBlocks - total;
    if freeCount < 0 { freeCount := 0; }
    MapsLastByCidr(cidrs, allocations, childCIDRs);
    r := Some(CalcResult(total, map["/24" := freeCount, "24" := freeCount], cidrs));
  }

  // ---------------------------------------------------------------- cheap against exact

  ghost predicate AllWithin(pool: Cidr, list: seq<Cidr>) {
    forall c :: c in list ==> Within(c, pool)
  }

  /** The number of /24 blocks that a list of CIDRs of prefix length at most 24 occupies. */
  function Occupied(list: seq<Cidr>): nat {
    if list == [] then 0
    else
      var c := list[|list| - 1];
      Occupied(list[..|list| - 1]) + (if c.V4? && c.len <= 24 then Pow2(24 - c.len) else 0)
  }

  predicate Distinct(list: seq<Cidr>) {
    forall i, j :: 0 <= i < j < |list| ==> Disjoint(list[i], list[j])
  }

  lemma NothingMarked(pool: Cidr)
    requires PoolOk(pool) && pool.len <= 24
    ensures FreeAt(pool, MarkAll(pool, []), 24) == MaxBlocks(pool)
  {
    CountEmpty(BlockBits(24), TotalBlocks(pool, 24));
  }

  lemma LastIsFree(pool: Cidr, list: seq<Cidr>)
    requires pool.V4? && list != [] && Distinct(list)
    ensures var n := |list| - 1;
            list[n].V4? ==> BitsOf(pool, list[n]) !! MarkAll(pool, list[..n])
  {
    var n := |list| - 1;
    if list[n].V4? {
      forall i | i in MarkAll(pool, list[..n]) ensures i !in BitsOf(pool, list[n]) {
        var c := Provenance(pool, list[..n], i);
        var k :| 0 <= k < n && list[k] == c;
        assert Disjoint(list[k], list[n]);
      }
    }
  }

  /** Disjoint CIDRs of /24 or wider: the exact count is the total less the blocks they occupy. */
  lemma {:induction false} WideExact(pool: Cidr, list: seq<Cidr>)
    requires PoolOk(pool) && pool.len <= 24 && AllWithin(pool, list) && Distinct(list)
    requires forall c :: c in list ==> c.V4? && c.len <= 24
    ensures FreeAt(pool, MarkAll(pool, list), 24) == MaxBlocks(pool) - Occupied(list)
  {
    if list == [] {
      NothingMarked(pool);
    } else {
      var n := |list| - 1;
      WideExact(pool, list[..n]);
      LastIsFree(pool, list);
      MarkLowersSmaller(pool, MarkAll(pool, list[..n]), list[n], 24);
    }
  }

  lemma {:induction false} OccupiedBound(list: seq<Cidr>)
    requires forall c :: c in list ==> c.V4? && c.len <= 24
    ensures Occupied(list) >= |list|
    ensures Occupied(list) == |list| <==> forall c :: c in list ==> c.len == 24
  {
    if list != [] {
      var n := |list| - 1;
      OccupiedBound(list[..n]);
      var c := list[n];
      if c.len < 24 { Pow2Grows(0, 24 - c.len); }
      assert forall d :: d in list <==> d in list[..n] || d == c;
    }
  }

  /** Disjoint allocations of /24 or wider: the cheap count is never below the exact one, and equals it exactly when
      every allocation is a /24. */
  lemma CheapAgainstWide(pool: Cidr, list: seq<Cidr>)
    requires PoolOk(pool) && pool.len <= 24 && AllWithin(pool, list) && Distinct(list)
    requires forall c :: c in list ==> c.V4? && c.len <= 24
    ensures CheapFree(pool, |list|) >= FreeAt(pool, MarkAll(pool, list), 24)
    ensures CheapFree(pool, |list|) == FreeAt(pool, MarkAll(pool, list), 24) <==> forall c :: c in list ==> c.len == 24
  {
    WideExact(pool, list);
    OccupiedBound(list);
  }

  /** The /24 of the pool around a narrow CIDR. */
  lemma BlockIndex(pool: Cidr, c: Cidr) returns (k: nat)
    requires PoolOk(pool) && pool.len <= 24 && Within(c, pool) && c.len >= 24
    ensures BlockBits(24) == 256 && k < TotalBlocks(pool, 24)
    ensures k * 256 <= Network(c) - Network(pool) && Network(c) - Network(pool) + Size(c) <= k * 256 + 256
    ensures Network(c) / 256 == Network(pool) / 256 + k
  {
    Pow2Values();
    k := AroundBlock(pool, c, 24);
    NetworkAligned(pool, 8);
  }

  /** The /24 blocks, by number, that the network addresses of a list fall into. */
  function Blocks(list: seq<Cidr>): set<int> {
    set c | c in list && c.V4? :: Network(c) / 256
  }

  lemma BlocksExtend(list: seq<Cidr>, c: Cidr)
    requires c.V4?
    ensures Blocks(list + [c]) == Blocks(list) + {Network(c) / 256}
    ensures |Blocks(list + [c])| == |Blocks(list)| + (if Network(c) / 256 in Blocks(list) then 0 else 1)
  {
    forall b | b in Blocks(list) + {Network(c) / 256} ensures b in Blocks(list + [c]) {
      if b in Blocks(list) {
        var d :| d in list && d.V4? && Network(d) / 256 == b;
        assert d in list + [c];
      } else {
        assert c in list + [c];
      }
    }
  }

  /** Whether or not its marking succeeds, a CIDR that starts in the pool ends up with a bit in use. */
  lemma SomeBitUsed(pool: Cidr, list: seq<Cidr>, d: Cidr) returns (i: int)
    requires pool.V4? && d in list && Starts(pool, d)
    ensures i in BitsOf(pool, d) && i in MarkAll(pool, list)
  {
    var j :| 0 <= j < |list| && list[j] == d;
    Extend(pool, list, j);
    Monotone(pool, list, j + 1);
    assert Network(d) - Network(pool) in BitsOf(pool, d);
    i :| i in BitsOf(pool, d) && i in MarkAll(pool, list[..j + 1]);
  }

  lemma TakenBlockUsed(pool: Cidr, list: seq<Cidr>, c: Cidr, k: nat)
    requires PoolOk(pool) && pool.len <= 24 && AllWithin(pool, list)
    requires forall d :: d in list ==> d.V4? && d.len >= 24
    requires c.V4? && Network(c) / 256 in Blocks(list) && Network(c) / 256 == Network(pool) / 256 + k
    ensures !FreeBlock(MarkAll(pool, list), 256, k)
  {
    var d :| d in list && d.V4? && Network(d) / 256 == Network(c) / 256;
    var k' := BlockIndex(pool, d);
    var i := SomeBitUsed(pool, list, d);
    assert k * 256 <= i < k * 256 + 256;
  }

  lemma UsedBlockTaken(pool: Cidr, list: seq<Cidr>, k: nat, i: int)
    requires PoolOk(pool) && pool.len <= 24 && AllWithin(pool, list)
    requires forall d :: d in list ==> d.V4? && d.len >= 24
    requires k * 256 <= i < k * 256 + 256 && i in MarkAll(pool, list)
    ensures Network(pool) / 256 + k in Blocks(list)
  {
    var d := Provenance(pool, list, i);
    var k' := BlockIndex(pool, d);
    assert k' == k;
    assert Network(d) / 256 in Blocks(list);
  }

  lemma UntakenBlockFree(pool: Cidr, list: seq<Cidr>, c: Cidr, k: nat)
    requires PoolOk(pool) && pool.len <= 24 && AllWithin(pool, list)
    requires forall d :: d in list ==> d.V4? && d.len >= 24
    requires c.V4? && Network(c) / 256 !in Blocks(list) && Network(c) / 256 == Network(pool) / 256 + k
    ensures FreeBlock(MarkAll(pool, list), 256, k)
  {
    forall i | k * 256 <= i < k * 256 + 256 ensures i !in MarkAll(pool, list) {
      if i in MarkAll(pool, list) { UsedBlockTaken(pool, list, k, i); }
    }
  }

  /** One more CIDR takes away its /24, unless another one has it already. */
  lemma NarrowExactStep(pool: Cidr, list: seq<Cidr>, c: Cidr)
    requires PoolOk(pool) && pool.len <= 24 && AllWithin(pool, list) && Within(c, pool) && c.len >= 24
    requires forall d :: d in list ==> d.V4? && d.len >= 24
    ensures var bits := MarkAll(pool, list);
            FreeAt(pool, Mark(pool, bits, c), 24) == FreeAt(pool, bits, 24)
              - (if Network(c) / 256 in Blocks(list) then 0 else 1)
  {
    var bits := MarkAll(pool, list);
    var k := BlockIndex(pool, c);
    if Network(c) / 256 in Blocks(list) {
      TakenBlockUsed(pool, list, c, k);
    } else {
      UntakenBlockFree(pool, list, c, k);
      assert BitsOf(pool, c) !! bits by {
        forall i | i in BitsOf(pool, c) ensures i !in bits {
          assert k * 256 <= i < k * 256 + 256;
        }
      }
    }
    if BitsOf(pool, c) !! bits { MarkLowersLarger(pool, bits, c, 24, k); }
  }

  /** Allocations of /24 or narrower, overlapping or not: the exact count is the total less the number of different
      /24 blocks they fall into. */
  lemma {:induction false} NarrowExact(pool: Cidr, list: seq<Cidr>)
    requires PoolOk(pool) && pool.len <= 24 && AllWithin(pool, list)
    requires forall c :: c in list ==> c.V4? && c.len >= 24
    ensures FreeAt(pool, MarkAll(pool, list), 24) == MaxBlocks(pool) - |Blocks(list)|
    ensures |Blocks(list)| <= |list|
  {
    if list == [] {
      NothingMarked(pool);
    } else {
      var init, c := list[..|list| - 1], list[|list| - 1];
      assert list == init + [c] && MarkAll(pool, list) == Mark(pool, MarkAll(pool, init), c);
      NarrowExact(pool, init);
      NarrowExactStep(pool, init, c);
      BlocksExtend(init, c);
    }
  }

  /** Allocations of /24 or narrower, overlapping or not: the cheap count is never above the exact one. */
  lemma CheapAgainstNarrow(pool: Cidr, list: seq<Cidr>)
    requires PoolOk(pool) && pool.len <= 24 && AllWithin(pool, list)
    requires forall c :: c in list ==> c.V4? && c.len >= 24
    ensures CheapFree(pool, |list|) <= FreeAt(pool, MarkAll(pool, list), 24)
  {
    NarrowExact(pool, list);
  }

  /** And it equals the exact one exactly when each of them has a /24 of its own, or together they fall into every
      /24 of the pool. */
  lemma CheapExactIffSpread(pool: Cidr, list: seq<Cidr>)
    requires PoolOk(pool) && pool.len <= 24 && AllWithin(pool, list)
    requires forall c :: c in list ==> c.V4? && c.len >= 24
    ensures CheapFree(pool, |list|) == FreeAt(pool, MarkAll(pool, list), 24) <==>
            |Blocks(list)| == Min(|list|, MaxBlocks(pool))
  {
    NarrowExact(pool, list);
  }
}
