/** When a pool is safe under arbitrary staleness, exactly: every pair of overlapping CIDRs that claims can be given is
    created by some run of allocators with old lists. */
module StaleRaces {
  import opened Cidrs
  import opened Bitmap
  import opened MarkOrder
  import opened Counting
  import opened Allocator
  import opened Names
  import opened Protocol

  // ---------------------------------------------------------------- filling a pool

  /** The first `k` blocks of a size. */
  function Blocks(pool: Pool, size: nat, k: nat): seq<Cidr>
    requires Usable(pool, size) && k <= TotalBlocks(Mask(pool.cidr), size)
  {
    seq(k, i requires 0 <= i < k => BlockAt(Mask(pool.cidr), size, i))
  }

  lemma BlocksDiffer(pool: Pool, size: nat, i: nat, j: nat)
    requires Usable(pool, size) && i < TotalBlocks(Mask(pool.cidr), size) && j < TotalBlocks(Mask(pool.cidr), size)
    requires i != j
    ensures var c, d := BlockAt(Mask(pool.cidr), size, i), BlockAt(Mask(pool.cidr), size, j);
            c != d && Disjoint(c, d) && Within(c, pool.cidr) && Within(d, pool.cidr)
  {
    if i < j { BlocksDisjoint(Mask(pool.cidr), size, i, j); } else { BlocksDisjoint(Mask(pool.cidr), size, j, i); }
  }

  lemma BlocksListed(pool: Pool, size: nat, k: nat)
    requires Usable(pool, size) && k <= TotalBlocks(Mask(pool.cidr), size)
    ensures FirstBlocks(Mask(pool.cidr), size, Blocks(pool, size, k))
    ensures Lists(Blocks(pool, size, k), Elements(Blocks(pool, size, k)))
  {
    var bs := Blocks(pool, size, k);
    forall i, j | 0 <= i < j < |bs| ensures bs[i] != bs[j] {
      BlocksDiffer(pool, size, i, j);
    }
  }

  /** With the first `k` blocks in use, a dynamic claim is offered the next one. */
  lemma NextCandidate(claim: ClaimSpec, pool: Pool, k: nat, view: set<Subnet>)
    requires claim.requested.None? && Usable(pool, BlockSizeOf(claim, pool))
    requires k < TotalBlocks(Mask(pool.cidr), BlockSizeOf(claim, pool))
    ensures var size := BlockSizeOf(claim, pool);
            SelectCandidate(claim, pool, Blocks(pool, size, k), view) == Allocated(BlockAt(Mask(pool.cidr), size, k))
  {
    var size := BlockSizeOf(claim, pool);
    BlocksListed(pool, size, k);
    NextBlock(pool.cidr, size, Blocks(pool, size, k), Blocks(pool, size, k));
  }

  /** A different cluster for every block. */
  function Tag(k: nat): string {
    seq(k, _ => 'x')
  }

  function Filling(p: string, size: nat, k: nat): ClaimSpec {
    Wants(p, Tag(k), size)
  }

  /** The Subnet `s` under the name `n` is that of block `i`. */
  predicate IsFill(sha1: Sha1, p: string, blocks: seq<Cidr>, i: nat, n: string, s: Subnet) {
    i < |blocks| && s == Subnet(p, blocks[i], Tag(i)) && n == EncodeAllocationName(sha1, p, s.cidr)
  }

  ghost predicate HasBlock(sha1: Sha1, p: string, blocks: seq<Cidr>, i: nat, store: Store) {
    exists n :: n in store && IsFill(sha1, p, blocks, i, n, store[n])
  }

  ghost predicate AmongBlocks(sha1: Sha1, p: string, blocks: seq<Cidr>, n: string, s: Subnet) {
    exists i: nat :: IsFill(sha1, p, blocks, i, n, s)
  }

  /** The Subnets are those of the blocks. */
  ghost predicate Filled(sha1: Sha1, p: string, blocks: seq<Cidr>, store: Store) {
    && (forall i: nat :: i < |blocks| ==> HasBlock(sha1, p, blocks, i, store))
    && (forall n :: n in store ==> AmongBlocks(sha1, p, blocks, n, store[n]))
  }

  lemma FilledCidrs(sha1: Sha1, p: string, blocks: seq<Cidr>, store: Store)
    requires Filled(sha1, p, blocks, store)
    ensures CidrsOf(PoolSubnets(store, p)) == Elements(blocks)
  {
    var view := PoolSubnets(store, p);
    forall c | c in CidrsOf(view) ensures c in Elements(blocks) {
      var s :| s in view && s.cidr == c;
      var n :| n in store && store[n] == s;
      assert AmongBlocks(sha1, p, blocks, n, s);
    }
    forall c | c in Elements(blocks) ensures c in CidrsOf(view) {
      var i: nat :| i < |blocks| && blocks[i] == c;
      assert HasBlock(sha1, p, blocks, i, store);
      var n :| n in store && IsFill(sha1, p, blocks, i, n, store[n]);
      assert store[n] in view;
    }
  }

  lemma FilledClusters(sha1: Sha1, p: string, blocks: seq<Cidr>, store: Store, size: nat)
    requires Filled(sha1, p, blocks, store)
    ensures Existing(PoolSubnets(store, p), Filling(p, size, |blocks|)) == {}
  {
    var k := |blocks|;
    forall s | s in PoolSubnets(store, p) ensures s.clusterID != Tag(k) {
      var n :| n in store && store[n] == s;
      var i: nat :| IsFill(sha1, p, blocks, i, n, s);
      assert |Tag(i)| == i && |Tag(k)| == k;
    }
  }

  /** An encoded name of the pool is free if its CIDR is none of the blocks. */
  lemma NameFree(sha1: Sha1, p: string, pool: Pool, blocks: seq<Cidr>, store: Store, c: Cidr)
    requires Filled(sha1, p, blocks, store) && NamesDistinct(sha1, map[p := pool])
    requires Within(c, pool.cidr) && c !in blocks && forall b :: b in blocks ==> Within(b, pool.cidr)
    ensures EncodeAllocationName(sha1, p, c) !in store
  {
    forall n | n in store ensures n != EncodeAllocationName(sha1, p, c) {
      assert AmongBlocks(sha1, p, blocks, n, store[n]);
      NamedApart(sha1, p, pool, c, store[n].cidr);
    }
  }

  lemma FilledMore(sha1: Sha1, p: string, blocks: seq<Cidr>, store: Store, c: Cidr)
    requires Filled(sha1, p, blocks, store) && EncodeAllocationName(sha1, p, c) !in store
    ensures var n := EncodeAllocationName(sha1, p, c);
            Filled(sha1, p, blocks + [c], store[n := Subnet(p, c, Tag(|blocks|))])
  {
    var n, k, more := EncodeAllocationName(sha1, p, c), |blocks|, blocks + [c];
    var store' := store[n := Subnet(p, c, Tag(k))];
    assert IsFill(sha1, p, more, k, n, store'[n]);
    forall i: nat | i < |more| ensures HasBlock(sha1, p, more, i, store') {
      if i < k {
        assert HasBlock(sha1, p, blocks, i, store);
        var m :| m in store && IsFill(sha1, p, blocks, i, m, store[m]);
        assert m in store' && IsFill(sha1, p, more, i, m, store'[m]);
      }
    }
    forall m | m in store' ensures AmongBlocks(sha1, p, more, m, store'[m]) {
      if m != n {
        assert AmongBlocks(sha1, p, blocks, m, store[m]);
        var i: nat :| IsFill(sha1, p, blocks, i, m, store[m]);
        assert IsFill(sha1, p, more, i, m, store'[m]);
      }
    }
  }

  /** Allocator `i + 1` has finished with block `i`. */
  predicate IsDone(p: string, size: nat, blocks: seq<Cidr>, i: nat, st: State)
    requires i < |blocks|
  {
    i + 1 in st.procs && st.procs[i + 1] == Done(Filling(p, size, i), Allocated(blocks[i]))
  }

  /** The blocks are taken, and allocator 0 still stands where it began. */
  ghost predicate FillState(sha1: Sha1, p: string, size: nat, blocks: seq<Cidr>, first: Proc, st: State) {
    && Filled(sha1, p, blocks, st.store)
    && |st.history| == 2 * |blocks| + 2 && st.history[2 * |blocks| + 1] == st.store
    && 0 in st.procs && st.procs[0] == first && (forall id :: id in st.procs ==> id <= |blocks|)
    && forall i: nat :: i < |blocks| ==> IsDone(p, size, blocks, i, st)
  }

  /** No request fails, and nothing is deleted. */
  predicate Smooth(e: Event) {
    match e
    case Begin(_, _, _, _) => true
    case Attempt(_, _, createFails) => !createFails
    case Check(_, getFails) => !getFails
    case Refresh(_, getPoolFails, listFails, _) => !getPoolFails && !listFails
    case Delete(_) => false
  }

  ghost predicate AllSmooth(events: seq<Event>) {
    forall e :: e in events ==> Smooth(e)
  }

  /** Every claim that is begun is a dynamic one of this size on the pool, and nothing goes wrong. */
  ghost predicate Asking(p: string, size: nat, events: seq<Event>) {
    && AllSmooth(events)
    && forall i :: 0 <= i < |events| && events[i].Begin? ==>
         events[i].claim == Wants(p, events[i].claim.clusterID, size)
  }

  lemma BeginsTrying(ctx: Context, st: State, id: nat, claim: ClaimSpec, k: nat)
    requires id !in st.procs && claim.poolRef in ctx.pools && k < |st.history|
    requires Existing(PoolSubnets(st.history[k], claim.poolRef), claim) == {}
    ensures var view := PoolSubnets(st.history[k], claim.poolRef);
            Step(ctx, st, Begin(id, claim, k, NO_SUBNET))
            == Post(st, st.store, id, Trying(claim, 0, CidrsOf(view), view))
  {}

  /** The next allocator lists the current pool and creates the next block. */
  lemma FillStep(ctx: Context, p: string, size: nat, blocks: seq<Cidr>, c: Cidr, first: Proc, st: State)
    returns (events: seq<Event>, st': State)
    requires p in ctx.pools && FillState(ctx.sha1, p, size, blocks, first, st)
    requires EncodeAllocationName(ctx.sha1, p, c) !in st.store && Lists(blocks, Elements(blocks))
    requires size != 0 && AvailableAfter(ctx.pools[p].cidr, size, blocks) == Ok(c)
    ensures Asking(p, size, events) && st' == Run(ctx, st, events)
    ensures FillState(ctx.sha1, p, size, blocks + [c], first, st')
  {
    var id := |blocks| + 1;
    var begin, trying := FillBegins(ctx, p, size, blocks, first, st);
    var st1 := Post(st, st.store, id, trying);
    AttemptMakes(ctx, st1, id, trying, blocks, c);
    st' := Attempted(ctx, st1, id, trying, c);
    FillsOne(ctx, p, size, blocks, c, first, st, trying);
    RunTwo(ctx, st, begin, Attempt(id, blocks, false));
    PairAsking(p, size, begin, id, blocks);
    events := [begin, Attempt(id, blocks, false)];
  }

  lemma PairAsking(p: string, size: nat, begin: Event, id: nat, order: seq<Cidr>)
    requires begin.Begin? && begin.claim == Wants(p, begin.claim.clusterID, size)
    ensures Asking(p, size, [begin, Attempt(id, order, false)])
  {}

  lemma FillBegins(ctx: Context, p: string, size: nat, blocks: seq<Cidr>, first: Proc, st: State)
    returns (begin: Event, trying: Proc)
    requires p in ctx.pools && FillState(ctx.sha1, p, size, blocks, first, st)
    ensures begin.Begin? && begin.claim == Filling(p, size, |blocks|)
    ensures trying.Trying? && trying.claim == begin.claim && trying.used == Elements(blocks)
    ensures Step(ctx, st, begin) == Post(st, st.store, |blocks| + 1, trying)
  {
    var k, claim, view := |blocks|, Filling(p, size, |blocks|), PoolSubnets(st.store, p);
    FilledCidrs(ctx.sha1, p, blocks, st.store);
    FilledClusters(ctx.sha1, p, blocks, st.store, size);
    begin, trying := Begin(k + 1, claim, 2 * k + 1, NO_SUBNET), Trying(claim, 0, CidrsOf(view), view);
    BeginsTrying(ctx, st, k + 1, claim, 2 * k + 1);
  }

  lemma FillsOne(ctx: Context, p: string, size: nat, blocks: seq<Cidr>, c: Cidr, first: Proc, st: State, trying: Proc)
    requires FillState(ctx.sha1, p, size, blocks, first, st) && EncodeAllocationName(ctx.sha1, p, c) !in st.store
    requires trying.Trying? && trying.claim == Filling(p, size, |blocks|)
    ensures var id := |blocks| + 1;
            var st' := Attempted(ctx, Post(st, st.store, id, trying), id, trying, c);
            FillState(ctx.sha1, p, size, blocks + [c], first, st')
  {
    FilledMore(ctx.sha1, p, blocks, st.store, c);
    var id := |blocks| + 1;
    var st' := Attempted(ctx, Post(st, st.store, id, trying), id, trying, c);
    assert st'.procs == st.procs[id := Done(Filling(p, size, |blocks|), Allocated(c))];
    DoneMore(p, size, blocks, c, st, st');
  }

  lemma DoneMore(p: string, size: nat, blocks: seq<Cidr>, c: Cidr, st: State, st': State)
    requires forall i: nat :: i < |blocks| ==> IsDone(p, size, blocks, i, st)
    requires st'.procs == st.procs[|blocks| + 1 := Done(Filling(p, size, |blocks|), Allocated(c))]
    ensures forall i: nat :: i < |blocks + [c]| ==> IsDone(p, size, blocks + [c], i, st')
  {
    forall i: nat | i < |blocks + [c]| ensures IsDone(p, size, blocks + [c], i, st') {
      if i < |blocks| { assert IsDone(p, size, blocks, i, st); }
    }
  }

  /** With the first `k` blocks in use, the search answers the next one. */
  lemma NextAnswer(pool: Pool, size: nat, k: nat) returns (blocks: seq<Cidr>, c: Cidr)
    requires Usable(pool, size) && k < TotalBlocks(Mask(pool.cidr), size)
    ensures blocks == Blocks(pool, size, k) && Lists(blocks, Elements(blocks)) && size != 0
    ensures c == BlockAt(Mask(pool.cidr), size, k) && AvailableAfter(pool.cidr, size, blocks) == Ok(c)
    ensures Blocks(pool, size, k + 1) == blocks + [c]
  {
    blocks, c := Blocks(pool, size, k), BlockAt(Mask(pool.cidr), size, k);
    BlocksListed(pool, size, k);
    NextBlock(pool.cidr, size, blocks, blocks);
  }

  lemma NextIsFree(sha1: Sha1, p: string, pool: Pool, size: nat, k: nat, store: Store)
    requires Usable(pool, size) && k < TotalBlocks(Mask(pool.cidr), size)
    requires Filled(sha1, p, Blocks(pool, size, k), store) && NamesDistinct(sha1, map[p := pool])
    ensures EncodeAllocationName(sha1, p, BlockAt(Mask(pool.cidr), size, k)) !in store
  {
    var c := BlockAt(Mask(pool.cidr), size, k);
    forall i: nat | i < k ensures Blocks(pool, size, k)[i] != c && Within(Blocks(pool, size, k)[i], pool.cidr) {
      BlocksDiffer(pool, size, i, k);
    }
    NameFree(sha1, p, pool, Blocks(pool, size, k), store, c);
  }

  lemma {:induction false} Fill(ctx: Context, p: string, size: nat, k: nat, first: Proc, st: State)
    returns (events: seq<Event>, st': State)
    requires p in ctx.pools && Usable(ctx.pools[p], size) && k <= TotalBlocks(Mask(ctx.pools[p].cidr), size)
    requires FillState(ctx.sha1, p, size, [], first, st) && NamesDistinct(ctx.sha1, map[p := ctx.pools[p]])
    ensures Asking(p, size, events) && st' == Run(ctx, st, events)
    ensures FillState(ctx.sha1, p, size, Blocks(ctx.pools[p], size, k), first, st')
  {
    var pool := ctx.pools[p];
    if k == 0 {
      events, st' := [], st;
      assert Blocks(pool, size, 0) == [];
    } else {
      var before, st1 := Fill(ctx, p, size, k - 1, first, st);
      var blocks, c := NextAnswer(pool, size, k - 1);
      NextIsFree(ctx.sha1, p, pool, size, k - 1, st1.store);
      var more, st2 := FillStep(ctx, p, size, blocks, c, first, st1);
      events, st' := before + more, st2;
      RunInSteps(ctx, st, before, more);
    }
  }

  // ---------------------------------------------------------------- a requested CIDR against a block

  lemma BeginsFirst(ctx: Context, claim: ClaimSpec, size: nat) returns (st: State)
    requires claim.poolRef in ctx.pools
    ensures st == Run(ctx, EMPTY, [Begin(0, claim, 0, NO_SUBNET)])
    ensures FillState(ctx.sha1, claim.poolRef, size, [], Trying(claim, 0, {}, {}), st)
  {
    assert PoolSubnets(map[], claim.poolRef) == {} && CidrsOf({}) == {};
    BeginsTrying(ctx, EMPTY, 0, claim, 0);
    st := Post(EMPTY, map[], 0, Trying(claim, 0, {}, {}));
    var begin := Begin(0, claim, 0, NO_SUBNET);
    RunMore(ctx, EMPTY, [], begin);
    assert [] + [begin] == [begin];
  }

  /** A CIDR that meets block `k` without being it is none of the first `k + 1` blocks. */
  lemma NotABlock(pool: Pool, size: nat, k: nat, c: Cidr)
    requires Usable(pool, size) && k < TotalBlocks(Mask(pool.cidr), size)
    requires c != BlockAt(Mask(pool.cidr), size, k) && !Disjoint(c, BlockAt(Mask(pool.cidr), size, k))
    ensures c !in Blocks(pool, size, k + 1)
    ensures forall b :: b in Blocks(pool, size, k + 1) ==> Within(b, pool.cidr)
  {
    var blocks := Blocks(pool, size, k + 1);
    forall i: nat | i < k + 1 ensures blocks[i] != c && Within(blocks[i], pool.cidr) {
      if i < k { BlocksDiffer(pool, size, i, k); }
    }
  }

  /** Allocator 0 creates the requested CIDR, which it found clear in the empty pool. */
  lemma RequestLate(ctx: Context, p: string, size: nat, c: Cidr, blocks: seq<Cidr>, k: nat, st: State)
    requires p in ctx.pools && Within(c, ctx.pools[p].cidr) && NamesDistinct(ctx.sha1, map[p := ctx.pools[p]])
    requires FillState(ctx.sha1, p, size, blocks, Trying(Requests(p, "r", c), 0, {}, {}), st)
    requires c !in blocks && forall b :: b in blocks ==> Within(b, ctx.pools[p].cidr)
    requires k < |blocks| && !Disjoint(c, blocks[k])
    ensures !Safe(ctx, p, Step(ctx, st, Attempt(0, [], false)).store)
  {
    var claim, name := Requests(p, "r", c), EncodeAllocationName(ctx.sha1, p, c);
    EmptyPoolRequest(claim, ctx.pools[p]);
    NameFree(ctx.sha1, p, ctx.pools[p], blocks, st.store, c);
    AttemptMakes(ctx, st, 0, Trying(claim, 0, {}, {}), [], c);
    var st' := Attempted(ctx, st, 0, Trying(claim, 0, {}, {}), c);
    assert HasBlock(ctx.sha1, p, blocks, k, st.store);
    var n :| n in st.store && IsFill(ctx.sha1, p, blocks, k, n, st.store[n]);
    assert n in st'.store && name in st'.store && n != name;
  }

  /** Every claim that is begun is this one, or a dynamic one of this size on the pool, and nothing goes wrong. */
  ghost predicate AskingBehind(claim: ClaimSpec, p: string, size: nat, events: seq<Event>) {
    && AllSmooth(events)
    && forall i :: 0 <= i < |events| && events[i].Begin? ==>
         events[i].claim == claim || events[i].claim == Wants(p, events[i].claim.clusterID, size)
  }

  /** An allocator lists the empty pool and waits, while others take the first `k` blocks. */
  lemma FillBehind(ctx: Context, claim: ClaimSpec, size: nat, k: nat) returns (events: seq<Event>, st: State)
    requires claim.poolRef in ctx.pools && NamesDistinct(ctx.sha1, map[claim.poolRef := ctx.pools[claim.poolRef]])
    requires var pool := ctx.pools[claim.poolRef];
             Usable(pool, size) && k <= TotalBlocks(Mask(pool.cidr), size)
    ensures AskingBehind(claim, claim.poolRef, size, events) && st == Run(ctx, EMPTY, events)
    ensures var p := claim.poolRef;
            FillState(ctx.sha1, p, size, Blocks(ctx.pools[p], size, k), Trying(claim, 0, {}, {}), st)
  {
    var begin := [Begin(0, claim, 0, NO_SUBNET)];
    var st0 := BeginsFirst(ctx, claim, size);
    var fill, st1 := Fill(ctx, claim.poolRef, size, k, Trying(claim, 0, {}, {}), st0);
    RunInSteps(ctx, EMPTY, begin, fill);
    events, st := begin + fill, st1;
  }

  lemma BehindAdmitted(
    ctx: Context, claim: ClaimSpec, p: string, demand: Demand, size: nat, events: seq<Event>, e: Event)
    requires p in ctx.pools && Usable(ctx.pools[p], size) && size in demand.sizes
    requires Admits(ctx, p, demand, claim) && AskingBehind(claim, p, size, events) && !e.Begin?
    ensures EventsOk(ctx, p, demand, events + [e])
  {}

  /** A requested CIDR that meets a block without being it: the pool is filled up to the block while the requester keeps
      its first list. */
  lemma RequestOverlaps(ctx: Context, p: string, demand: Demand, size: nat, k: nat, c: Cidr)
    returns (events: seq<Event>)
    requires p in ctx.pools && Usable(ctx.pools[p], size) && NamesDistinct(ctx.sha1, map[p := ctx.pools[p]])
    requires k < TotalBlocks(Mask(ctx.pools[p].cidr), size) && size in demand.sizes && c in demand.requested
    requires var d := BlockAt(Mask(ctx.pools[p].cidr), size, k);
             Within(c, ctx.pools[p].cidr) && c != d && !Disjoint(c, d)
    ensures EventsOk(ctx, p, demand, events) && !Safe(ctx, p, Run(ctx, EMPTY, events).store)
  {
    var pool, claim, late := ctx.pools[p], Requests(p, "r", c), Attempt(0, [], false);
    var before, st := FillBehind(ctx, claim, size, k + 1);
    NotABlock(pool, size, k, c);
    RequestLate(ctx, p, size, c, Blocks(pool, size, k + 1), k, st);
    RunMore(ctx, EMPTY, before, late);
    BehindAdmitted(ctx, claim, p, demand, size, before, late);
    events := before + [late];
  }

  /** An aligned block of the pool is one of its blocks by number. */
  lemma BlockNumber(pool: Pool, c: Cidr) returns (k: nat)
    requires Within(c, pool.cidr) && Network(c) == c.addr && Usable(pool, c.len)
    ensures k < TotalBlocks(Mask(pool.cidr), c.len) && c == BlockAt(Mask(pool.cidr), c.len, k)
  {
    k := AroundBlock(Mask(pool.cidr), c, c.len);
  }

  lemma OverlapRuns(ctx: Context, p: string, demand: Demand, c: Cidr, d: Cidr) returns (events: seq<Event>)
    requires p in ctx.pools && NamesDistinct(ctx.sha1, map[p := ctx.pools[p]])
    requires Offered(ctx.pools[p], demand, c) && Offered(ctx.pools[p], demand, d) && c != d && !Disjoint(c, d)
    ensures EventsOk(ctx, p, demand, events) && !Safe(ctx, p, Run(ctx, EMPTY, events).store)
  {
    var pool := ctx.pools[p];
    if c in demand.requested && d in demand.requested {
      events := RequestsRace(ctx, p, demand, c, d);
    } else if c in demand.requested {
      var k := BlockNumber(pool, d);
      events := RequestOverlaps(ctx, p, demand, d.len, k, c);
    } else if d in demand.requested {
      var k := BlockNumber(pool, c);
      events := RequestOverlaps(ctx, p, demand, c.len, k, d);
    } else {
      if c.len == d.len { EqualSizes(c, d); }
      events := SizesRace(ctx, p, demand, c.len, d.len);
    }
  }

  lemma RaceAdmitted(ctx: Context, p: string, demand: Demand, a: ClaimSpec, b: ClaimSpec)
    requires p in ctx.pools && Admits(ctx, p, demand, a) && Admits(ctx, p, demand, b)
    ensures EventsOk(ctx, p, demand, Race(a, b))
  {}

  lemma BlocksFirst(ctx: Context, a: ClaimSpec, s: nat, b: ClaimSpec, t: nat)
    requires a.poolRef in ctx.pools && b.poolRef == a.poolRef && a.requested.None? && b.requested.None?
    requires a.blockSize == s && b.blockSize == t && Usable(ctx.pools[a.poolRef], s) && Usable(ctx.pools[a.poolRef], t)
    ensures var m := Mask(ctx.pools[a.poolRef].cidr);
            Firsts(ctx, a, BlockAt(m, s, 0), b, BlockAt(m, t, 0))
  {
    EmptyPoolCandidate(a, ctx.pools[a.poolRef]);
    EmptyPoolCandidate(b, ctx.pools[a.poolRef]);
  }

  lemma RequestsRace(ctx: Context, p: string, demand: Demand, c: Cidr, d: Cidr) returns (events: seq<Event>)
    requires p in ctx.pools && NamesDistinct(ctx.sha1, map[p := ctx.pools[p]]) && c != d && !Disjoint(c, d)
    requires Within(c, ctx.pools[p].cidr) && Within(d, ctx.pools[p].cidr)
    requires c in demand.requested && d in demand.requested
    ensures EventsOk(ctx, p, demand, events) && !Safe(ctx, p, Run(ctx, EMPTY, events).store)
  {
    var a, b := Requests(p, "a", c), Requests(p, "b", d);
    EmptyPoolRequest(a, ctx.pools[p]);
    EmptyPoolRequest(b, ctx.pools[p]);
    NamedApart(ctx.sha1, p, ctx.pools[p], c, d);
    RaceOverlaps(ctx, a, c, b, d);
    RaceAdmitted(ctx, p, demand, a, b);
    events := Race(a, b);
  }

  lemma SizesRace(ctx: Context, p: string, demand: Demand, s: nat, t: nat) returns (events: seq<Event>)
    requires p in ctx.pools && NamesDistinct(ctx.sha1, map[p := ctx.pools[p]]) && s != t
    requires Usable(ctx.pools[p], s) && Usable(ctx.pools[p], t) && s in demand.sizes && t in demand.sizes
    ensures EventsOk(ctx, p, demand, events) && !Safe(ctx, p, Run(ctx, EMPTY, events).store)
  {
    var a, b, pool := Wants(p, "a", s), Wants(p, "b", t), ctx.pools[p];
    var c := FirstBlockOffered(pool, demand, s);
    var d := FirstBlockOffered(pool, demand, t);
    BlocksFirst(ctx, a, s, b, t);
    NamedApart(ctx.sha1, p, pool, c, d);
    RaceOverlaps(ctx, a, c, b, d);
    RaceAdmitted(ctx, p, demand, a, b);
    events := Race(a, b);
  }

  /** Exactly when is a pool safe under arbitrary staleness: when any two different CIDRs that its claims can be given,
      aligned blocks of usable sizes and requested CIDRs, are disjoint. Otherwise some run creates overlapping
      Subnets. */
  lemma StaleSafeIff(ctx: Context, pool: string, demand: Demand)
    requires pool in ctx.pools && NamesDistinct(ctx.sha1, map[pool := ctx.pools[pool]])
    ensures (forall events :: EventsOk(ctx, pool, demand, events) ==> Safe(ctx, pool, Run(ctx, EMPTY, events).store))
            <==> OffersApart(ctx.pools[pool], demand)
  {
    if OffersApart(ctx.pools[pool], demand) {
      forall events | EventsOk(ctx, pool, demand, events) ensures Safe(ctx, pool, Run(ctx, EMPTY, events).store) {
        StaleRunsSafe(ctx, pool, demand, EMPTY, events);
      }
    } else {
      var c, d :| Offered(ctx.pools[pool], demand, c) && Offered(ctx.pools[pool], demand, d)
                  && c != d && !Disjoint(c, d);
      var events := OverlapRuns(ctx, pool, demand, c, d);
    }
  }

  /** With dynamic claims only: when at most one of the block sizes that they ask for is usable. */
  lemma StaleSafeIffOneSize(ctx: Context, pool: string, sizes: set<nat>)
    requires pool in ctx.pools && NamesDistinct(ctx.sha1, map[pool := ctx.pools[pool]])
    ensures (forall events :: EventsOk(ctx, pool, Demand(sizes, {}), events) ==>
               Safe(ctx, pool, Run(ctx, EMPTY, events).store))
            <==> OneUsableSize(ctx.pools[pool], sizes)
  {
    StaleSafeIff(ctx, pool, Demand(sizes, {}));
    ApartIffOneSize(ctx.pools[pool], sizes);
  }
}
