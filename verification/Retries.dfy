/** What the retries of `allocateCIDR` are for: a call whose list is out of date finds its way after one refresh. */
module Retries {
  import opened Cidrs
  import opened Bitmap
  import opened MarkOrder
  import opened Allocator
  import opened Names
  import opened Protocol
  import opened AllocationLoop

  /** All CIDRs are aligned blocks of the pool of this size. */
  ghost predicate OnlyBlocks(pool: Pool, size: nat, used: set<Cidr>) {
    forall u :: u in used ==> OfferedBlock(pool, Demand({size}, {}), u)
  }

  lemma BlockIsOffered(pool: Pool, size: nat, i: nat)
    requires Usable(pool, size) && i < TotalBlocks(Mask(pool.cidr), size)
    ensures OfferedBlock(pool, Demand({size}, {}), BlockAt(Mask(pool.cidr), size, i))
  {}

  /** Among blocks of one size, to be clear of the used ones is not to be one of them. */
  lemma ClearIffUnused(pool: Pool, size: nat, used: set<Cidr>, i: nat)
    requires Usable(pool, size) && i < TotalBlocks(Mask(pool.cidr), size) && OnlyBlocks(pool, size, used)
    ensures var m := Mask(pool.cidr);
            BlockClear(m, size, used, i) <==> BlockAt(m, size, i) !in used
  {
    var m := Mask(pool.cidr);
    var b := BlockAt(m, size, i);
    if b !in used {
      forall u | u in used ensures Disjoint(b, u) {
        EqualSizes(b, u);
      }
    } else {
      assert Starts(m, b) && !Disjoint(b, b);
    }
  }

  lemma OnlyBlocksTiled(pool: Pool, size: nat, used: set<Cidr>)
    requires Usable(pool, size) && OnlyBlocks(pool, size, used)
    ensures Tiled(Mask(pool.cidr), used)
  {
    forall c, d | c in used && d in used && c != d ensures Disjoint(c, d) {
      EqualSizes(c, d);
    }
    DisjointIsTiled(Mask(pool.cidr), used);
  }

  /** All blocks are in use. */
  ghost predicate Full(pool: Pool, size: nat, used: set<Cidr>)
    requires Usable(pool, size)
  {
    forall i: nat :: i < TotalBlocks(Mask(pool.cidr), size) ==> BlockAt(Mask(pool.cidr), size, i) in used
  }

  /** With blocks of one size in use, a dynamic claim of that size is offered an unused block, or none is left. */
  lemma OneSizeFit(claim: ClaimSpec, pool: Pool, used: set<Cidr>, order: seq<Cidr>, view: set<Subnet>)
    requires claim.requested.None? && Usable(pool, BlockSizeOf(claim, pool))
    requires OnlyBlocks(pool, BlockSizeOf(claim, pool), used) && Lists(order, used)
    ensures var size, r := BlockSizeOf(claim, pool), SelectCandidate(claim, pool, order, view);
            match r
            case Allocated(c) => c !in used && OfferedBlock(pool, Demand({size}, {}), c) && ABlock(pool, size, c)
            case Refused(e) => e.ExhaustedError? && Full(pool, size, used)
  {
    var size, m := BlockSizeOf(claim, pool), Mask(pool.cidr);
    OnlyBlocksTiled(pool, size, used);
    FirstFit(pool.cidr, size, used, order);
    forall i: nat | i < TotalBlocks(m, size)
      ensures BlockClear(m, size, used, i) <==> BlockAt(m, size, i) !in used
    {
      ClearIffUnused(pool, size, used, i);
    }
    var r := AvailableAfter(pool.cidr, size, order);
    if r.Ok? {
      var i: nat :| i < TotalBlocks(m, size) && r.value == BlockAt(m, size, i) && BlockClear(m, size, used, i);
      BlockIsOffered(pool, size, i);
      assert IsBlock(m, size, i, r.value);
    }
  }

  ghost predicate ABlock(pool: Pool, size: nat, c: Cidr)
    requires Usable(pool, size)
  {
    exists i: nat :: IsBlock(Mask(pool.cidr), size, i, c)
  }

  lemma UnusedNotFull(pool: Pool, size: nat, used: set<Cidr>, c: Cidr)
    requires Usable(pool, size) && ABlock(pool, size, c) && c !in used
    ensures !Full(pool, size, used)
  {
    var i: nat :| IsBlock(Mask(pool.cidr), size, i, c);
  }

  /** A calm server, on which the pool has blocks of one size only, and a list of such blocks that may be out of date;
      the cluster of the claim is in neither. */
  ghost predicate Outdated(sha1: Sha1, start: Server, claim: ClaimSpec, view: set<Subnet>, pool: Pool) {
    && start.script == [] && claim.poolRef in start.pools && start.pools[claim.poolRef] == pool
    && WellFiled(Context(sha1, start.pools), start.subnets) && NamesDistinct(sha1, start.pools)
    && claim.requested.None? && Usable(pool, BlockSizeOf(claim, pool))
    && var current := PoolSubnets(start.subnets, claim.poolRef);
       && OnlyBlocks(pool, BlockSizeOf(claim, pool), CidrsOf(view) + CidrsOf(current))
       && Existing(view, claim) == {} && Existing(current, claim) == {}
  }

  /** The CIDRs that are listed or current. */
  function Known(start: Server, claim: ClaimSpec, view: set<Subnet>): set<Cidr> {
    CidrsOf(view) + CidrsOf(PoolSubnets(start.subnets, claim.poolRef))
  }

  /** The claim has got a new Subnet clear of all current ones, or the pool is exhausted. */
  ghost predicate Settles(
    sha1: Sha1, start: Server, claim: ClaimSpec, view: set<Subnet>, pool: Pool, after: Server, r: Outcome)
    requires Usable(pool, BlockSizeOf(claim, pool))
  {
    match r
    case Allocated(c) =>
      && !Full(pool, BlockSizeOf(claim, pool), Known(start, claim, view))
      && NameFor(sha1, claim, c) !in start.subnets
      && after == start.(subnets := start.subnets[NameFor(sha1, claim, c) := SubnetFor(claim, c)])
      && Within(c, pool.cidr) && forall s :: s in PoolSubnets(start.subnets, claim.poolRef) ==> Disjoint(c, s.cidr)
    case Refused(e) =>
      e.ExhaustedError? && after == start && Full(pool, BlockSizeOf(claim, pool), Known(start, claim, view))
  }

  /** The positions of such a call: with the old list, with a conflict, with the new list, or finished. */
  ghost predicate OnCourse(
    sha1: Sha1, start: Server, claim: ClaimSpec, view: set<Subnet>, pool: Pool, at: Position)
    requires Usable(pool, BlockSizeOf(claim, pool))
  {
    var current := PoolSubnets(start.subnets, claim.poolRef);
    && at.pool == pool && at.proc.claim == claim
    && (!at.proc.Done? ==> at.server == start)
    && match at.proc
       case Trying(_, retry, used, v) =>
         || (retry == 0 && used == CidrsOf(view) && v == view)
         || (retry == 1 && used == Known(start, claim, view) && v == current)
       case Checking(_, retry, used, v, c) =>
         retry == 0 && used == CidrsOf(view) + {c} && v == view && c !in CidrsOf(view) && c in CidrsOf(current)
       case Waiting(_, retry, used, v) => retry == 0 && used == CidrsOf(view) && v == view
       case Done(_, r) => Settles(sha1, start, claim, view, pool, at.server, r)
  }

  /** A block of the pool whose name is free is disjoint from all current Subnets, and one whose name is taken is one
      of them, of another cluster. */
  lemma NameDecides(sha1: Sha1, start: Server, claim: ClaimSpec, view: set<Subnet>, pool: Pool, c: Cidr)
    requires Outdated(sha1, start, claim, view, pool)
    requires OfferedBlock(pool, Demand({BlockSizeOf(claim, pool)}, {}), c)
    ensures var name, current := NameFor(sha1, claim, c), PoolSubnets(start.subnets, claim.poolRef);
            if name in start.subnets then
              c in CidrsOf(current) && start.subnets[name].clusterID != claim.clusterID && start.subnets[name].cidr == c
            else c !in CidrsOf(current) && forall s :: s in current ==> Disjoint(c, s.cidr)
  {
    var name, current := NameFor(sha1, claim, c), PoolSubnets(start.subnets, claim.poolRef);
    if name in start.subnets {
      var s := start.subnets[name];
      assert Clash(sha1, claim.poolRef, c, s.poolRef, s.cidr);
      assert s in current && s !in Existing(current, claim);
    } else {
      forall s | s in current ensures s.cidr != c && Disjoint(c, s.cidr) {
        var n :| n in start.subnets && start.subnets[n] == s;
        assert s.cidr in CidrsOf(current);
        if s.cidr != c { EqualSizes(c, s.cidr); }
      }
    }
  }

  lemma FirstRound(
    sha1: Sha1, start: Server, claim: ClaimSpec, view: set<Subnet>, pool: Pool, at: Position, order: seq<Cidr>)
    requires Outdated(sha1, start, claim, view, pool) && Lists(order, CidrsOf(view))
    requires at == Position(start, Trying(claim, 0, CidrsOf(view), view), pool)
    ensures OnCourse(sha1, start, claim, view, pool, Round(sha1, at, order))
  {
    var size, r := BlockSizeOf(claim, pool), SelectCandidate(claim, pool, order, view);
    OneSizeFit(claim, pool, CidrsOf(view), order, view);
    if r.Refused? {
      RoundRefused(sha1, at, order, r.error);
    } else {
      NameDecides(sha1, start, claim, view, pool, r.cidr);
      RoundCreate(sha1, at, order, r.cidr);
      if NameFor(sha1, claim, r.cidr) !in start.subnets {
        UnusedNotFull(pool, size, Known(start, claim, view), r.cidr);
      }
    }
  }

  lemma OwnerRound(
    sha1: Sha1, start: Server, claim: ClaimSpec, view: set<Subnet>, pool: Pool, at: Position, order: seq<Cidr>)
    requires Outdated(sha1, start, claim, view, pool) && OnCourse(sha1, start, claim, view, pool, at)
    requires at.proc.Checking?
    ensures OnCourse(sha1, start, claim, view, pool, Round(sha1, at, order))
  {
    var c, current := at.proc.candidate, PoolSubnets(start.subnets, claim.poolRef);
    assert c in CidrsOf(view) + CidrsOf(current);
    NameDecides(sha1, start, claim, view, pool, c);
    RoundCheck(sha1, at, order);
    assert CidrsOf(view) + {c} - {c} == CidrsOf(view);
  }

  lemma RefreshRound(
    sha1: Sha1, start: Server, claim: ClaimSpec, view: set<Subnet>, pool: Pool, at: Position, order: seq<Cidr>)
    requires Outdated(sha1, start, claim, view, pool)
    requires at == Position(start, Waiting(claim, 0, CidrsOf(view), view), pool)
    ensures OnCourse(sha1, start, claim, view, pool, Round(sha1, at, order))
  {
    RoundAgain(sha1, at, order);
  }

  lemma SecondRound(
    sha1: Sha1, start: Server, claim: ClaimSpec, view: set<Subnet>, pool: Pool, at: Position, order: seq<Cidr>)
    requires Outdated(sha1, start, claim, view, pool) && Lists(order, Known(start, claim, view))
    requires var current := PoolSubnets(start.subnets, claim.poolRef);
             at == Position(start, Trying(claim, 1, Known(start, claim, view), current), pool)
    ensures OnCourse(sha1, start, claim, view, pool, Round(sha1, at, order))
  {
    var size, current := BlockSizeOf(claim, pool), PoolSubnets(start.subnets, claim.poolRef);
    var r := SelectCandidate(claim, pool, order, current);
    OneSizeFit(claim, pool, Known(start, claim, view), order, current);
    if r.Refused? {
      RoundRefused(sha1, at, order, r.error);
    } else {
      NameDecides(sha1, start, claim, view, pool, r.cidr);
      RoundCreate(sha1, at, order, r.cidr);
      UnusedNotFull(pool, size, Known(start, claim, view), r.cidr);
    }
  }

  lemma RoundStaysOnCourse(
    sha1: Sha1, start: Server, claim: ClaimSpec, view: set<Subnet>, pool: Pool, at: Position, order: seq<Cidr>)
    requires Outdated(sha1, start, claim, view, pool) && OnCourse(sha1, start, claim, view, pool, at)
    ensures OnCourse(sha1, start, claim, view, pool, Round(sha1, at, order))
  {
    match at.proc
    case Trying(_, retry, used, v) =>
      if !Lists(order, used) {
        RoundIdle(sha1, at, order);
      } else if retry == 0 {
        FirstRound(sha1, start, claim, view, pool, at, order);
      } else {
        SecondRound(sha1, start, claim, view, pool, at, order);
      }
    case Checking(_, _, _, _, _) => OwnerRound(sha1, start, claim, view, pool, at, order);
    case Waiting(_, _, _, _) => RefreshRound(sha1, start, claim, view, pool, at, order);
    case Done(_, _) =>
  }

  lemma {:induction false} PlayStaysOnCourse(
    sha1: Sha1, start: Server, claim: ClaimSpec, view: set<Subnet>, pool: Pool, at: Position, orders: seq<seq<Cidr>>)
    requires Outdated(sha1, start, claim, view, pool) && OnCourse(sha1, start, claim, view, pool, at)
    ensures OnCourse(sha1, start, claim, view, pool, Play(sha1, at, orders))
  {
    if orders != [] {
      var init := orders[..|orders| - 1];
      PlayStaysOnCourse(sha1, start, claim, view, pool, at, init);
      RoundStaysOnCourse(sha1, start, claim, view, pool, Play(sha1, at, init), orders[|orders| - 1]);
    }
  }

  /** One refresh is enough. In a pool whose blocks have one size, a call with a list of any age gets a new Subnet,
      inside the pool and disjoint from all current ones, if and only if some block is neither listed nor current;
      otherwise the pool is reported as exhausted and nothing is created. */
  lemma OneRefreshEnough(
    sha1: Sha1, start: Server, claim: ClaimSpec, view: set<Subnet>, pool: Pool, after: Server, r: Outcome)
    requires Outdated(sha1, start, claim, view, pool) && PlaysTo(sha1, start, claim, view, pool, after, r)
    ensures Settles(sha1, start, claim, view, pool, after, r)
    ensures r.Allocated? <==> !Full(pool, BlockSizeOf(claim, pool), Known(start, claim, view))
  {
    var pick, orders :|
      && (Existing(view, claim) != {} ==> pick in Existing(view, claim))
      && Ends(Play(sha1, Position(start, Opening(claim, view, pick), pool), orders), claim, after, r);
    PlayStaysOnCourse(sha1, start, claim, view, pool, Position(start, Opening(claim, view, pick), pool), orders);
  }
}
