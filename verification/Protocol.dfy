/** The Allocation-First protocol: any number of allocators, each working from a list of Subnets that may
    be out of date, race on creating a Subnet whose name is computed from pool and CIDR.

    The steps of an allocator are those of `allocateCIDR` between two accesses to the API server. */
module Protocol {
  import opened Cidrs
  import opened Bitmap
  import opened MarkOrder
  import opened Allocator
  import opened Names

  const MAX_RETRIES: nat := 50

  /** The Subnets of a namespace by object name. */
  type Store = map<string, Subnet>

  datatype Context = Context(sha1: Sha1, pools: map<string, Pool>)

  function PoolSubnets(store: Store, pool: string): set<Subnet> {
    set n | n in store && store[n].poolRef == pool :: store[n]
  }

  function CidrsOf(view: set<Subnet>): set<Cidr> {
    set s | s in view :: s.cidr
  }

  function NameFor(sha1: Sha1, claim: ClaimSpec, c: Cidr): string {
    EncodeAllocationName(sha1, claim.poolRef, c)
  }

  function SubnetFor(claim: ClaimSpec, c: Cidr): Subnet {
    Subnet(claim.poolRef, c, claim.clusterID)
  }

  /** Where an allocator stands: about to select and create; a create was refused and the owner of the
      existing object is to be looked up; a conflict was found and the list is to be refreshed; finished. */
  datatype Proc =
    | Trying(claim: ClaimSpec, retry: nat, used: set<Cidr>, view: set<Subnet>)
    | Checking(claim: ClaimSpec, retry: nat, used: set<Cidr>, view: set<Subnet>, candidate: Cidr)
    | Waiting(claim: ClaimSpec, retry: nat, used: set<Cidr>, view: set<Subnet>)
    | Done(claim: ClaimSpec, outcome: Outcome)

  datatype State = State(store: Store, history: seq<Store>, procs: map<nat, Proc>)

  /** A list request answers with the Subnets of some past store, `history[k]`; `pick` is the first Subnet of
      the claim's cluster in that list, if there is one; `order` is the order of a map iteration. */
  datatype Event =
    | Begin(id: nat, claim: ClaimSpec, k: nat, pick: Subnet)
    | Attempt(id: nat, order: seq<Cidr>, createFails: bool)
    | Check(id: nat, getFails: bool)
    | Refresh(id: nat, getPoolFails: bool, listFails: bool, k: nat)
    | Delete(name: string)

  const EMPTY: State := State(map[], [map[]], map[])

  function Existing(view: set<Subnet>, claim: ClaimSpec): set<Subnet> {
    set s | s in view && s.clusterID == claim.clusterID && s.poolRef == claim.poolRef
  }

  function BeginStep(st: State, id: nat, claim: ClaimSpec, view: set<Subnet>, pick: Subnet): State {
    if Existing(view, claim) == {} then Post(st, st.store, id, Trying(claim, 0, CidrsOf(view), view))
    else if pick in Existing(view, claim) then Post(st, st.store, id, Done(claim, Allocated(pick.cidr)))
    else st
  }

  function Post(st: State, store: Store, id: nat, p: Proc): State {
    State(store, st.history + [store], st.procs[id := p])
  }

  /** One step; an event that is not enabled changes nothing. */
  function Step(ctx: Context, st: State, e: Event): State {
    match e
    case Begin(id, claim, k, pick) =>
      if id in st.procs || claim.poolRef !in ctx.pools || k >= |st.history| then st
      else BeginStep(st, id, claim, PoolSubnets(st.history[k], claim.poolRef), pick)
    case Attempt(id, order, createFails) =>
      if id !in st.procs || !st.procs[id].Trying? then st
      else AttemptStep(ctx, st, id, st.procs[id], order, createFails)
    case Check(id, getFails) =>
      if id !in st.procs || !st.procs[id].Checking? then st else CheckStep(ctx, st, id, st.procs[id], getFails)
    case Refresh(id, getPoolFails, listFails, k) =>
      if id !in st.procs || !st.procs[id].Waiting? || k >= |st.history| then st
      else
        var p := st.procs[id];
        var view := PoolSubnets(st.history[k], p.claim.poolRef);
        Post(st, st.store, id,
             if p.retry + 1 >= MAX_RETRIES then
               Done(p.claim, Refused(PlainError("failed to allocate CIDR after 50 retries")))
             else if getPoolFails then Done(p.claim, Refused(PlainError("failed to get latest pool state")))
             else if listFails then Trying(p.claim, p.retry + 1, p.used, p.view)
             else Trying(p.claim, p.retry + 1, p.used + CidrsOf(view), view))
    case Delete(name) =>
      State(st.store - {name}, st.history + [st.store - {name}], st.procs)
  }

  /** Select a candidate and create its Subnet, atomically, unless the name is taken. */
  function AttemptStep(ctx: Context, st: State, id: nat, p: Proc, order: seq<Cidr>, createFails: bool): State
    requires p.Trying?
  {
    if p.claim.poolRef !in ctx.pools || !Lists(order, p.used) then st
    else
      match SelectCandidate(p.claim, ctx.pools[p.claim.poolRef], order, p.view)
      case Refused(e) => Post(st, st.store, id, Done(p.claim, Refused(e)))
      case Allocated(c) =>
        var name := NameFor(ctx.sha1, p.claim, c);
        if createFails then
          Post(st, st.store, id, Done(p.claim, Refused(PlainError("failed to create allocation"))))
        else if name in st.store then
          Post(st, st.store, id, Checking(p.claim, p.retry, p.used + {c}, p.view, c))
        else
          Post(st, st.store[name := SubnetFor(p.claim, c)], id, Done(p.claim, Allocated(c)))
  }

  /** Look at the owner of the object that was in the way; on a conflict the reservation is rolled back. */
  function CheckStep(ctx: Context, st: State, id: nat, p: Proc, getFails: bool): State
    requires p.Checking?
  {
    var name := NameFor(ctx.sha1, p.claim, p.candidate);
    if !getFails && name in st.store && st.store[name].clusterID == p.claim.clusterID then
      Post(st, st.store, id, Done(p.claim, Allocated(st.store[name].cidr)))
    else
      Post(st, st.store, id, Waiting(p.claim, p.retry, p.used - {p.candidate}, p.view))
  }

  function Run(ctx: Context, st: State, events: seq<Event>): State {
    if events == [] then st
    else Step(ctx, Run(ctx, st, events[..|events| - 1]), events[|events| - 1])
  }

  // ---------------------------------------------------------------- safety

  /** All Subnets of the pool lie inside it and are pairwise disjoint. */
  ghost predicate Safe(ctx: Context, pool: string, store: Store)
    requires pool in ctx.pools
  {
    && (forall n :: n in store && store[n].poolRef == pool ==> Within(store[n].cidr, ctx.pools[pool].cidr))
    && (forall n, m :: n in store && m in store && n != m && store[n].poolRef == pool && store[m].poolRef == pool
          ==> Disjoint(store[n].cidr, store[m].cidr))
  }

  /** A block size at which the pool can serve dynamic claims at all. */
  predicate Usable(pool: Pool, size: nat) {
    PoolOk(pool.cidr) && MIN_SIZE <= size <= MAX_SIZE && pool.cidr.len <= size
  }

  /** What the claims on a pool ask for: the block sizes of the dynamic ones, and the requested CIDRs. */
  datatype Demand = Demand(sizes: set<nat>, requested: set<Cidr>)

  /** The claim, if it is one on the pool, asks for something in the demand. */
  predicate Admits(ctx: Context, pool: string, demand: Demand, claim: ClaimSpec)
    requires pool in ctx.pools
  {
    claim.poolRef == pool ==>
      if claim.requested.Some? then claim.requested.value in demand.requested
      else BlockSizeOf(claim, ctx.pools[pool]) in demand.sizes
  }

  ghost predicate EventsOk(ctx: Context, pool: string, demand: Demand, events: seq<Event>)
    requires pool in ctx.pools
  {
    forall i :: 0 <= i < |events| && events[i].Begin? ==> Admits(ctx, pool, demand, events[i].claim)
  }

  /** An aligned block of the pool of a usable size in the demand. */
  predicate OfferedBlock(pool: Pool, demand: Demand, c: Cidr) {
    Within(c, pool.cidr) && Network(c) == c.addr && c.len in demand.sizes && Usable(pool, c.len)
  }

  /** What a claim can be given: such a block, or a requested CIDR inside the pool. */
  predicate Offered(pool: Pool, demand: Demand, c: Cidr) {
    Within(c, pool.cidr) && (c in demand.requested || OfferedBlock(pool, demand, c))
  }

  /** The Subnet is filed under its encoded name and is one that a claim can be given. */
  predicate Filed(ctx: Context, pool: string, demand: Demand, name: string, s: Subnet)
    requires pool in ctx.pools
  {
    s.poolRef == pool ==>
      name == EncodeAllocationName(ctx.sha1, pool, s.cidr) && Offered(ctx.pools[pool], demand, s.cidr)
  }

  ghost predicate Inv(ctx: Context, pool: string, demand: Demand, st: State)
    requires pool in ctx.pools
  {
    && (forall n :: n in st.store ==> Filed(ctx, pool, demand, n, st.store[n]))
    && (forall id :: id in st.procs && !st.procs[id].Done? ==> Admits(ctx, pool, demand, st.procs[id].claim))
  }

  lemma PostKeepsInv(ctx: Context, pool: string, demand: Demand, st: State, store: Store, id: nat, p: Proc)
    requires pool in ctx.pools && Inv(ctx, pool, demand, st)
    requires forall n :: n in store ==> Filed(ctx, pool, demand, n, store[n])
    requires !p.Done? ==> Admits(ctx, pool, demand, p.claim)
    ensures Inv(ctx, pool, demand, Post(st, store, id, p))
  {}

  lemma CandidateFiled(
    ctx: Context, pool: string, demand: Demand, claim: ClaimSpec, order: seq<Cidr>, view: set<Subnet>)
    requires pool in ctx.pools && Admits(ctx, pool, demand, claim) && claim.poolRef in ctx.pools
    ensures var r := SelectCandidate(claim, ctx.pools[claim.poolRef], order, view);
            r.Allocated? ==> Filed(ctx, pool, demand, NameFor(ctx.sha1, claim, r.cidr), SubnetFor(claim, r.cidr))
  {
    CandidateShape(claim, ctx.pools[claim.poolRef], order, view);
    if claim.requested.Some? { RequestedExact(claim.requested.value, ctx.pools[claim.poolRef].cidr, view); }
  }

  lemma AttemptKeepsInv(
    ctx: Context, pool: string, demand: Demand, st: State, id: nat, p: Proc, order: seq<Cidr>, createFails: bool)
    requires pool in ctx.pools && Inv(ctx, pool, demand, st) && p.Trying? && Admits(ctx, pool, demand, p.claim)
    ensures Inv(ctx, pool, demand, AttemptStep(ctx, st, id, p, order, createFails))
  {
    if p.claim.poolRef in ctx.pools && Lists(order, p.used) {
      CandidateFiled(ctx, pool, demand, p.claim, order, p.view);
      match SelectCandidate(p.claim, ctx.pools[p.claim.poolRef], order, p.view)
      case Refused(e) => PostKeepsInv(ctx, pool, demand, st, st.store, id, Done(p.claim, Refused(e)));
      case Allocated(c) =>
        var name, s := NameFor(ctx.sha1, p.claim, c), SubnetFor(p.claim, c);
        PostKeepsInv(ctx, pool, demand, st, st.store, id,
                     Done(p.claim, Refused(PlainError("failed to create allocation"))));
        PostKeepsInv(ctx, pool, demand, st, st.store[name := s], id, Done(p.claim, Allocated(c)));
        PostKeepsInv(ctx, pool, demand, st, st.store, id, Checking(p.claim, p.retry, p.used + {c}, p.view, c));
    }
  }

  lemma StepKeepsInv(ctx: Context, pool: string, demand: Demand, st: State, e: Event)
    requires pool in ctx.pools && Inv(ctx, pool, demand, st)
    requires e.Begin? ==> Admits(ctx, pool, demand, e.claim)
    ensures Inv(ctx, pool, demand, Step(ctx, st, e))
  {
    if e.Attempt? && e.id in st.procs && st.procs[e.id].Trying? {
      AttemptKeepsInv(ctx, pool, demand, st, e.id, st.procs[e.id], e.order, e.createFails);
    }
  }

  lemma {:induction false} RunKeepsInv(ctx: Context, pool: string, demand: Demand, st: State, events: seq<Event>)
    requires pool in ctx.pools && Inv(ctx, pool, demand, st) && EventsOk(ctx, pool, demand, events)
    ensures Inv(ctx, pool, demand, Run(ctx, st, events))
  {
    if events != [] {
      var init := events[..|events| - 1];
      RunKeepsInv(ctx, pool, demand, st, init);
      StepKeepsInv(ctx, pool, demand, Run(ctx, st, init), events[|events| - 1]);
    }
  }

  /** Any two different CIDRs that claims can be given are disjoint. */
  ghost predicate OffersApart(pool: Pool, demand: Demand) {
    forall c, d :: Offered(pool, demand, c) && Offered(pool, demand, d) && c != d ==> Disjoint(c, d)
  }

  lemma InvIsSafe(ctx: Context, pool: string, demand: Demand, st: State)
    requires pool in ctx.pools && Inv(ctx, pool, demand, st) && OffersApart(ctx.pools[pool], demand)
    ensures Safe(ctx, pool, st.store)
  {
    forall n, m | n in st.store && m in st.store && n != m && st.store[n].poolRef == pool && st.store[m].poolRef == pool
      ensures Disjoint(st.store[n].cidr, st.store[m].cidr)
    {
      assert Filed(ctx, pool, demand, n, st.store[n]) && Filed(ctx, pool, demand, m, st.store[m]);
    }
  }

  /** Safety under arbitrary staleness: when any two different CIDRs that the claims on a pool can be given are
      disjoint, every interleaving of allocators, dynamic or with requested CIDRs, lists of any age, failed requests and
      deletions keeps the pool safe. */
  lemma StaleRunsSafe(ctx: Context, pool: string, demand: Demand, st: State, events: seq<Event>)
    requires pool in ctx.pools && Inv(ctx, pool, demand, st) && EventsOk(ctx, pool, demand, events)
    requires OffersApart(ctx.pools[pool], demand)
    ensures Safe(ctx, pool, Run(ctx, st, events).store)
  {
    RunKeepsInv(ctx, pool, demand, st, events);
    InvIsSafe(ctx, pool, demand, Run(ctx, st, events));
  }

  ghost predicate OneUsableSize(pool: Pool, sizes: set<nat>) {
    forall s, t :: s in sizes && t in sizes && Usable(pool, s) && Usable(pool, t) ==> s == t
  }

  /** Two aligned blocks of one size are equal or disjoint. */
  lemma EqualSizes(c: Cidr, d: Cidr)
    requires c.V4? && d.V4? && c.len == d.len && Network(c) == c.addr && Network(d) == d.addr && c != d
    ensures Disjoint(c, d)
  {
    Laminar(c, d);
  }

  /** The first block of a usable size is on offer. */
  lemma FirstBlockOffered(pool: Pool, demand: Demand, s: nat) returns (c: Cidr)
    requires s in demand.sizes && Usable(pool, s)
    ensures c == BlockAt(Mask(pool.cidr), s, 0) && OfferedBlock(pool, demand, c)
    ensures Network(c) == Network(pool.cidr)
  {
    c := BlockAt(Mask(pool.cidr), s, 0);
  }

  /** Dynamic claims alone are apart exactly if at most one of their sizes is usable. */
  lemma ApartIffOneSize(pool: Pool, sizes: set<nat>)
    ensures OffersApart(pool, Demand(sizes, {})) <==> OneUsableSize(pool, sizes)
  {
    var demand := Demand(sizes, {});
    if OneUsableSize(pool, sizes) {
      forall c, d | Offered(pool, demand, c) && Offered(pool, demand, d) && c != d ensures Disjoint(c, d) {
        EqualSizes(c, d);
      }
    } else {
      var s, t :| s in sizes && t in sizes && Usable(pool, s) && Usable(pool, t) && s != t;
      var c := FirstBlockOffered(pool, demand, s);
      var d := FirstBlockOffered(pool, demand, t);
      assert !Disjoint(c, d);
    }
  }

  // ---------------------------------------------------------------- encoded names

  predicate Clash(sha1: Sha1, p: string, c: Cidr, q: string, d: Cidr) {
    EncodeAllocationName(sha1, p, c) == EncodeAllocationName(sha1, q, d)
  }

  /** No two CIDRs of the pools have the same encoded name. */
  ghost predicate NamesDistinct(sha1: Sha1, pools: map<string, Pool>) {
    forall p, q, c, d :: Clash(sha1, p, c, q, d) && p in pools && q in pools ==>
      Within(c, pools[p].cidr) && Within(d, pools[q].cidr) ==> p == q && c == d
  }

  /** Names that are not hashed are distinct. */
  lemma ShortNamesDistinct(sha1: Sha1, pools: map<string, Pool>)
    requires forall p :: p in pools ==> |p| <= 44
    ensures NamesDistinct(sha1, pools)
  {
    forall p, q, c, d | Clash(sha1, p, c, q, d) && p in pools && q in pools
      ensures Within(c, pools[p].cidr) && Within(d, pools[q].cidr) ==> p == q && c == d
    {
      if Within(c, pools[p].cidr) && Within(d, pools[q].cidr) {
        NameLength(sha1, p, c);
        NameLength(sha1, q, d);
        ShortNameInjective(sha1, p, c, q, d);
      }
    }
  }

  /** In a pool whose names are distinct. */
  lemma NamedApart(sha1: Sha1, p: string, pool: Pool, c: Cidr, d: Cidr)
    requires NamesDistinct(sha1, map[p := pool]) && Within(c, pool.cidr) && Within(d, pool.cidr) && c != d
    ensures !Clash(sha1, p, c, p, d)
  {
    var pools := map[p := pool];
    assert p in pools && Within(c, pools[p].cidr) && Within(d, pools[p].cidr);
  }

  // ---------------------------------------------------------------- two allocators race on an empty pool

  function Wants(pool: string, id: string, size: nat): ClaimSpec {
    ClaimSpec(pool, id, size, None)
  }

  function Requests(pool: string, id: string, c: Cidr): ClaimSpec {
    ClaimSpec(pool, id, 0, Some(c))
  }

  /** Two allocators list the empty pool. */
  function BothList(a: ClaimSpec, b: ClaimSpec): seq<Event> {
    [Begin(0, a, 0, NO_SUBNET), Begin(1, b, 0, NO_SUBNET)]
  }

  /** Then each creates its candidate. */
  const BOTH_CREATE: seq<Event> := [Attempt(0, [], false), Attempt(1, [], false)]

  function Race(a: ClaimSpec, b: ClaimSpec): seq<Event> {
    BothList(a, b) + BOTH_CREATE
  }

  lemma EmptyPoolCandidate(claim: ClaimSpec, pool: Pool)
    requires claim.requested.None? && Usable(pool, BlockSizeOf(claim, pool))
    ensures SelectCandidate(claim, pool, [], {}) == Allocated(BlockAt(Mask(pool.cidr), BlockSizeOf(claim, pool), 0))
  {
    var m, size := Mask(pool.cidr), BlockSizeOf(claim, pool);
    assert MarkAll(m, []) == {};
    assert Free({}, 0 * BlockBits(size), BlockBits(size));
  }

  lemma EmptyPoolRequest(claim: ClaimSpec, pool: Pool)
    requires claim.requested.Some? && Within(claim.requested.value, pool.cidr)
    ensures SelectCandidate(claim, pool, [], {}) == Allocated(claim.requested.value)
  {
    RequestedExact(claim.requested.value, pool.cidr, {});
  }

  lemma BothBegin(ctx: Context, a: ClaimSpec, b: ClaimSpec) returns (st: State)
    requires a.poolRef == b.poolRef && a.poolRef in ctx.pools
    ensures st == Run(ctx, EMPTY, BothList(a, b))
    ensures st.store == map[] && st.procs == map[0 := Trying(a, 0, {}, {}), 1 := Trying(b, 0, {}, {})]
    ensures |st.history| == 3
  {
    var r := BothList(a, b);
    assert PoolSubnets(map[], a.poolRef) == {} && CidrsOf({}) == {};
    var s1 := Step(ctx, EMPTY, r[0]);
    st := Step(ctx, s1, r[1]);
    RunTwo(ctx, EMPTY, r[0], r[1]);
  }

  /** Create the candidate, or find its name taken. */
  function Attempted(ctx: Context, st: State, id: nat, p: Proc, c: Cidr): State
    requires p.Trying?
  {
    var name := NameFor(ctx.sha1, p.claim, c);
    if name in st.store then Post(st, st.store, id, Checking(p.claim, p.retry, p.used + {c}, p.view, c))
    else Post(st, st.store[name := SubnetFor(p.claim, c)], id, Done(p.claim, Allocated(c)))
  }

  lemma AttemptMakes(ctx: Context, st: State, id: nat, p: Proc, order: seq<Cidr>, c: Cidr)
    requires id in st.procs && st.procs[id] == p && p.Trying? && p.claim.poolRef in ctx.pools && Lists(order, p.used)
    requires SelectCandidate(p.claim, ctx.pools[p.claim.poolRef], order, p.view) == Allocated(c)
    ensures Step(ctx, st, Attempt(id, order, false)) == Attempted(ctx, st, id, p, c)
  {}

  /** The Subnets after the race; the second create is refused if the names coincide. */
  function RaceStore(sha1: Sha1, a: ClaimSpec, c: Cidr, b: ClaimSpec, d: Cidr): Store {
    var n, k := NameFor(sha1, a, c), NameFor(sha1, b, d);
    if n == k then map[n := SubnetFor(a, c)] else map[n := SubnetFor(a, c), k := SubnetFor(b, d)]
  }

  /** The claims have these first candidates in the empty pool. */
  predicate Firsts(ctx: Context, a: ClaimSpec, c: Cidr, b: ClaimSpec, d: Cidr) {
    && a.poolRef in ctx.pools && b.poolRef == a.poolRef
    && SelectCandidate(a, ctx.pools[a.poolRef], [], {}) == Allocated(c)
    && SelectCandidate(b, ctx.pools[a.poolRef], [], {}) == Allocated(d)
  }

  /** The second half of the race. */
  lemma RaceEnds(ctx: Context, st: State, a: ClaimSpec, c: Cidr, b: ClaimSpec, d: Cidr) returns (st': State)
    requires Firsts(ctx, a, c, b, d) && st.store == map[] && |st.history| == 3
    requires st.procs == map[0 := Trying(a, 0, {}, {}), 1 := Trying(b, 0, {}, {})]
    ensures st' == Run(ctx, st, BOTH_CREATE)
    ensures st'.store == RaceStore(ctx.sha1, a, c, b, d) && |st'.history| == 5 && st'.history[4] == st'.store
    ensures 1 in st'.procs
    ensures Clash(ctx.sha1, a.poolRef, c, a.poolRef, d) ==> st'.procs[1] == Checking(b, 0, {d}, {}, d)
  {
    assert Lists([], {}) && {} + {d} == {d};
    AttemptMakes(ctx, st, 0, st.procs[0], [], c);
    var s3 := Attempted(ctx, st, 0, st.procs[0], c);
    AttemptMakes(ctx, s3, 1, s3.procs[1], [], d);
    st' := Attempted(ctx, s3, 1, s3.procs[1], d);
    RunTwo(ctx, st, BOTH_CREATE[0], BOTH_CREATE[1]);
  }

  lemma RunTwo(ctx: Context, st: State, a: Event, b: Event)
    ensures Run(ctx, st, [a, b]) == Step(ctx, Step(ctx, st, a), b)
  {
    assert [a, b][..1] == [a] && [a][..0] == [];
    assert Run(ctx, st, [a]) == Step(ctx, st, a);
  }

  lemma RunMore(ctx: Context, st: State, events: seq<Event>, e: Event)
    ensures Run(ctx, st, events + [e]) == Step(ctx, Run(ctx, st, events), e)
  {
    assert (events + [e])[..|events|] == events;
  }

  lemma {:induction false} RunInSteps(ctx: Context, st: State, first: seq<Event>, second: seq<Event>)
    ensures Run(ctx, st, first + second) == Run(ctx, Run(ctx, st, first), second)
    decreases |second|
  {
    if second == [] {
      assert first + second == first;
    } else {
      var init, e := LastApart(first, second);
      RunInSteps(ctx, st, first, init);
      RunMore(ctx, st, first + init, e);
      RunMore(ctx, Run(ctx, st, first), init, e);
    }
  }

  lemma LastApart<T>(first: seq<T>, second: seq<T>) returns (init: seq<T>, last: T)
    requires second != []
    ensures second == init + [last] && first + second == first + init + [last]
  {
    init, last := second[..|second| - 1], second[|second| - 1];
  }

  lemma RaceRuns(ctx: Context, a: ClaimSpec, c: Cidr, b: ClaimSpec, d: Cidr) returns (st: State)
    requires Firsts(ctx, a, c, b, d)
    ensures st == Run(ctx, EMPTY, Race(a, b)) && st.store == RaceStore(ctx.sha1, a, c, b, d)
    ensures |st.history| == 5 && st.history[4] == st.store
    ensures 1 in st.procs
    ensures Clash(ctx.sha1, a.poolRef, c, a.poolRef, d) ==> st.procs[1] == Checking(b, 0, {d}, {}, d)
  {
    var s2 := BothBegin(ctx, a, b);
    st := RaceEnds(ctx, s2, a, c, b, d);
    RunInSteps(ctx, EMPTY, BothList(a, b), BOTH_CREATE);
  }

  /** Two allocators that both list the empty pool and then propose different CIDRs that overlap, of two sizes or as
      requested, create overlapping Subnets, unless the names of the two happen to coincide. */
  lemma RaceOverlaps(ctx: Context, a: ClaimSpec, c: Cidr, b: ClaimSpec, d: Cidr)
    requires Firsts(ctx, a, c, b, d) && !Disjoint(c, d)
    ensures Safe(ctx, a.poolRef, Run(ctx, EMPTY, Race(a, b)).store) <==> Clash(ctx.sha1, a.poolRef, c, a.poolRef, d)
  {
    var st := RaceRuns(ctx, a, c, b, d);
    CandidateShape(a, ctx.pools[a.poolRef], [], {});
    CandidateShape(b, ctx.pools[a.poolRef], [], {});
    RaceStoreSafeIff(ctx, a, c, b, d);
  }

  lemma RaceStoreSafeIff(ctx: Context, a: ClaimSpec, c: Cidr, b: ClaimSpec, d: Cidr)
    requires a.poolRef in ctx.pools && b.poolRef == a.poolRef && !Disjoint(c, d)
    requires Within(c, ctx.pools[a.poolRef].cidr) && Within(d, ctx.pools[a.poolRef].cidr)
    ensures Safe(ctx, a.poolRef, RaceStore(ctx.sha1, a, c, b, d)) <==> Clash(ctx.sha1, a.poolRef, c, a.poolRef, d)
  {
    var store := RaceStore(ctx.sha1, a, c, b, d);
    assert NameFor(ctx.sha1, a, c) in store && NameFor(ctx.sha1, b, d) in store;
  }

  // ---------------------------------------------------------------- what a conflict leaves behind

  lemma SameCandidate(claim: ClaimSpec, pool: Pool, used: set<Cidr>, o1: seq<Cidr>, o2: seq<Cidr>, view: set<Subnet>)
    requires Lists(o1, used) && Lists(o2, used)
    requires pool.cidr.V4? ==> Tiled(Mask(pool.cidr), used)
    ensures SelectCandidate(claim, pool, o1, view) == SelectCandidate(claim, pool, o2, view)
  {
    if PoolOk(pool.cidr) {
      var m := Mask(pool.cidr);
      TiledGivesUnion(m, o1);
      TiledGivesUnion(m, o2);
      SameUnion(m, used, MarkAll(m, o1), MarkAll(m, o2));
    }
  }

  lemma CandidateUnused(claim: ClaimSpec, pool: Pool, used: set<Cidr>, order: seq<Cidr>, view: set<Subnet>)
    requires Lists(order, used) && (pool.cidr.V4? ==> Tiled(Mask(pool.cidr), used)) && CidrsOf(view) <= used
    requires claim.requested.Some? ==> used <= CidrsOf(view)
    ensures var r := SelectCandidate(claim, pool, order, view);
            r.Allocated? ==> r.cidr !in used
  {
    var r := SelectCandidate(claim, pool, order, view);
    if r.Allocated? {
      CandidateShape(claim, pool, order, view);
      assert !Disjoint(r.cidr, r.cidr);
      if claim.requested.Some? {
        RequestedExact(claim.requested.value, pool.cidr, view);
      } else {
        FirstFit(pool.cidr, BlockSizeOf(claim, pool), used, order);
        assert Starts(Mask(pool.cidr), r.cidr);
      }
    }
  }

  /** The allocator, with retries left and a tiled set of used CIDRs, proposes a CIDR that another cluster has. */
  ghost predicate Contended(ctx: Context, st: State, id: nat, order: seq<Cidr>) {
    && id in st.procs && st.procs[id].Trying? && st.procs[id].claim.poolRef in ctx.pools
    && var p := st.procs[id];
       var pool := ctx.pools[p.claim.poolRef];
       && p.claim.requested.None? && p.retry + 1 < MAX_RETRIES
       && Lists(order, p.used) && CidrsOf(p.view) <= p.used
       && (pool.cidr.V4? ==> Tiled(Mask(pool.cidr), p.used))
       && var r := SelectCandidate(p.claim, pool, order, p.view);
          && r.Allocated? && NameFor(ctx.sha1, p.claim, r.cidr) in st.store
          && st.store[NameFor(ctx.sha1, p.claim, r.cidr)].clusterID != p.claim.clusterID
  }

  /** Where an allocator stands after a conflict and the list request that follows it: the candidate is forgotten, and
      only what the list shows is added. */
  function AfterConflict(p: Proc, listFails: bool, listed: set<Subnet>): Proc
    requires p.Trying?
  {
    if listFails then Trying(p.claim, p.retry + 1, p.used, p.view)
    else Trying(p.claim, p.retry + 1, p.used + CidrsOf(listed), listed)
  }

  /** Fifty attempts: the first is attempt 0, and after a conflict there is another one, from the refreshed list,
      exactly up to attempt 49; then the allocator gives up. */
  lemma FiftyAttempts(
    ctx: Context, st: State, id: nat, claim: ClaimSpec, retry: nat, used: set<Cidr>, view: set<Subnet>, k: nat)
    requires id in st.procs && st.procs[id] == Waiting(claim, retry, used, view) && k < |st.history|
    ensures var p, listed := Step(ctx, st, Refresh(id, false, false, k)).procs[id],
              PoolSubnets(st.history[k], claim.poolRef);
            if retry < 49 then p == Trying(claim, retry + 1, used + CidrsOf(listed), listed)
            else p.Done? && p.outcome.Refused? && p.outcome.error.PlainError?
  {}

  /** A conflict, and the list request that follows it, of any age or failing. */
  function Retry(id: nat, order: seq<Cidr>, listFails: bool, k: nat): seq<Event> {
    [Attempt(id, order, false), Check(id, false), Refresh(id, false, listFails, k)]
  }

  lemma AttemptConflicts(ctx: Context, st: State, id: nat, order: seq<Cidr>) returns (st': State, c: Cidr)
    requires Contended(ctx, st, id, order)
    ensures var p := st.procs[id];
            && SelectCandidate(p.claim, ctx.pools[p.claim.poolRef], order, p.view) == Allocated(c) && c !in p.used
            && st' == Step(ctx, st, Attempt(id, order, false))
            && st' == Post(st, st.store, id, Checking(p.claim, p.retry, p.used + {c}, p.view, c))
  {
    var p := st.procs[id];
    c := SelectCandidate(p.claim, ctx.pools[p.claim.poolRef], order, p.view).cidr;
    CandidateUnused(p.claim, ctx.pools[p.claim.poolRef], p.used, order, p.view);
    st' := Step(ctx, st, Attempt(id, order, false));
  }

  lemma ConflictForgets(ctx: Context, st: State, id: nat, order: seq<Cidr>, listFails: bool, k: nat)
    requires Contended(ctx, st, id, order) && k < |st.history|
    ensures var p, st' := st.procs[id], Run(ctx, st, Retry(id, order, listFails, k));
            && st'.store == st.store && id in st'.procs
            && st'.procs[id] == AfterConflict(p, listFails, PoolSubnets(st.history[k], p.claim.poolRef))
            && (forall i :: i in st.procs && i != id ==> i in st'.procs && st'.procs[i] == st.procs[i])
  {
    var p, e := st.procs[id], Retry(id, order, listFails, k);
    var s1, c := AttemptConflicts(ctx, st, id, order);
    assert p.used + {c} - {c} == p.used;
    var s2 := Post(s1, s1.store, id, Waiting(p.claim, p.retry, p.used, p.view));
    assert Step(ctx, s1, e[1]) == CheckStep(ctx, s1, id, s1.procs[id], false) == s2;
    assert s2.history[k] == st.history[k];
    RefreshAfterConflict(ctx, s2, id, p, listFails, k);
    RunThree(ctx, st, e[0], e[1], e[2]);
  }

  lemma RefreshAfterConflict(ctx: Context, st: State, id: nat, p: Proc, listFails: bool, k: nat)
    requires p.Trying? && p.retry + 1 < MAX_RETRIES && k < |st.history|
    requires id in st.procs && st.procs[id] == Waiting(p.claim, p.retry, p.used, p.view)
    ensures Step(ctx, st, Refresh(id, false, listFails, k)) ==
            Post(st, st.store, id, AfterConflict(p, listFails, PoolSubnets(st.history[k], p.claim.poolRef)))
  {}

  /** When a conflict is repeated, exactly: the allocator proposes the same CIDR again, in whatever order it visits its
      map, if and only if no CIDR it knows of after the list request, among those that start in the pool, meets it. */
  lemma RepeatsIffClear(
    ctx: Context, st: State, id: nat, order: seq<Cidr>, order': seq<Cidr>, listFails: bool, k: nat)
    ensures Contended(ctx, st, id, order) && k < |st.history| ==>
              var p, st' := st.procs[id], Run(ctx, st, Retry(id, order, listFails, k));
              var p' := AfterConflict(p, listFails, PoolSubnets(st.history[k], p.claim.poolRef));
              var pool := ctx.pools[p.claim.poolRef];
              && st'.store == st.store && id in st'.procs && st'.procs[id] == p'
              && (Lists(order', p'.used) && pool.cidr.V4? && Tiled(Mask(pool.cidr), p'.used) ==>
                    Again(p.claim, pool, order, p.view, order', p'))
  {
    if Contended(ctx, st, id, order) && k < |st.history| {
      ConflictForgets(ctx, st, id, order, listFails, k);
      var p := st.procs[id];
      var pool := ctx.pools[p.claim.poolRef];
      var p' := AfterConflict(p, listFails, PoolSubnets(st.history[k], p.claim.poolRef));
      CandidateShape(p.claim, pool, order, p.view);
      if Lists(order', p'.used) && Tiled(Mask(pool.cidr), p'.used) {
        SameAnswerIffClear(pool.cidr, BlockSizeOf(p.claim, pool), p.used, order, p'.used, order');
      }
    }
  }

  /** The candidate is proposed again exactly when it is clear of everything in use. */
  ghost predicate Again(
    claim: ClaimSpec, pool: Pool, order: seq<Cidr>, view: set<Subnet>, order': seq<Cidr>, p': Proc)
    requires p'.Trying? && pool.cidr.V4?
  {
    var r := SelectCandidate(claim, pool, order, view);
    && r.Allocated?
    && (SelectCandidate(claim, pool, order', p'.view) == r <==>
        forall u :: u in p'.used && Starts(Mask(pool.cidr), u) ==> Disjoint(r.cidr, u))
  }

  /** A list request that fails, or that succeeds with nothing new, repeats the conflict. */
  lemma OldNewsRepeats(p: Proc, pool: Pool, order: seq<Cidr>, order': seq<Cidr>, listFails: bool, listed: set<Subnet>)
    requires p.Trying? && p.claim.requested.None? && Lists(order, p.used) && Lists(order', p.used)
    requires pool.cidr.V4? ==> Tiled(Mask(pool.cidr), p.used)
    ensures var p' := AfterConflict(p, listFails, listed);
            listFails || CidrsOf(listed) <= p.used ==>
              && p'.used == p.used
              && SelectCandidate(p.claim, pool, order', p'.view) == SelectCandidate(p.claim, pool, order, p.view)
  {
    SameCandidate(p.claim, pool, p.used, order, order', p.view);
  }

  /** A requested CIDR is proposed again exactly if the latest list is clear of it; the used CIDRs play no part. */
  lemma RequestRepeatsIff(
    p: Proc, pool: Pool, order: seq<Cidr>, order': seq<Cidr>, listFails: bool, listed: set<Subnet>)
    requires p.Trying? && p.claim.requested.Some? && SelectCandidate(p.claim, pool, order, p.view).Allocated?
    ensures var p', c := AfterConflict(p, listFails, listed), p.claim.requested.value;
            && SelectCandidate(p.claim, pool, order, p.view) == Allocated(c)
            && (SelectCandidate(p.claim, pool, order', p'.view) == Allocated(c) <==>
                forall s :: s in p'.view ==> Disjoint(c, s.cidr))
  {
    RequestedExact(p.claim.requested.value, pool.cidr, p.view);
    RequestedExact(p.claim.requested.value, pool.cidr, AfterConflict(p, listFails, listed).view);
  }

  lemma RunThree(ctx: Context, st: State, a: Event, b: Event, c: Event)
    ensures Run(ctx, st, [a, b, c]) == Step(ctx, Step(ctx, Step(ctx, st, a), b), c)
  {
    assert [a, b, c][..2] == [a, b] && [a, b][..1] == [a] && [a][..0] == [];
    assert Run(ctx, st, [a]) == Step(ctx, st, a);
    assert Run(ctx, st, [a, b]) == Step(ctx, Step(ctx, st, a), b);
  }

  // ---------------------------------------------------------------- what allocators report

  /** A Subnet that exists is never replaced; only a deletion removes it. */
  lemma StepGrows(ctx: Context, st: State, e: Event)
    requires !e.Delete?
    ensures forall n :: n in st.store ==> n in Step(ctx, st, e).store && Step(ctx, st, e).store[n] == st.store[n]
    ensures Step(ctx, st, e).history == st.history || Step(ctx, st, e).history == st.history + [Step(ctx, st, e).store]
  {}

  /** Every Subnet is filed under its encoded name, inside its pool. */
  ghost predicate WellFiled(ctx: Context, store: Store) {
    forall n :: n in store ==>
      && store[n].poolRef in ctx.pools && Within(store[n].cidr, ctx.pools[store[n].poolRef].cidr)
      && n == EncodeAllocationName(ctx.sha1, store[n].poolRef, store[n].cidr)
  }

  predicate Holds(ctx: Context, store: Store, claim: ClaimSpec, c: Cidr) {
    NameFor(ctx.sha1, claim, c) in store && store[NameFor(ctx.sha1, claim, c)] == SubnetFor(claim, c)
  }

  /** An allocator that finished with a CIDR holds it, and a candidate under examination lies in the pool. */
  predicate Truthful(ctx: Context, store: Store, p: Proc) {
    && (p.Done? && p.outcome.Allocated? ==> Holds(ctx, store, p.claim, p.outcome.cidr))
    && (!p.Done? ==> p.claim.poolRef in ctx.pools)
    && (p.Checking? ==> Within(p.candidate, ctx.pools[p.claim.poolRef].cidr))
  }

  predicate Includes(store: Store, past: Store) {
    forall n :: n in past ==> n in store && store[n] == past[n]
  }

  ghost predicate ReportInv(ctx: Context, st: State) {
    && WellFiled(ctx, st.store)
    && (forall k :: 0 <= k < |st.history| ==> Includes(st.store, st.history[k]))
    && (forall id :: id in st.procs ==> Truthful(ctx, st.store, st.procs[id]))
  }

  lemma ListedIsHeld(ctx: Context, store: Store, past: Store, claim: ClaimSpec, pick: Subnet)
    requires WellFiled(ctx, store) && Includes(store, past)
    requires pick in Existing(PoolSubnets(past, claim.poolRef), claim)
    ensures Holds(ctx, store, claim, pick.cidr)
  {
    var n :| n in past && past[n] == pick;
  }

  lemma FoundIsHeld(ctx: Context, store: Store, claim: ClaimSpec, c: Cidr)
    requires WellFiled(ctx, store) && NamesDistinct(ctx.sha1, ctx.pools)
    requires claim.poolRef in ctx.pools && Within(c, ctx.pools[claim.poolRef].cidr)
    requires NameFor(ctx.sha1, claim, c) in store && store[NameFor(ctx.sha1, claim, c)].clusterID == claim.clusterID
    ensures Holds(ctx, store, claim, store[NameFor(ctx.sha1, claim, c)].cidr)
  {
    var s := store[NameFor(ctx.sha1, claim, c)];
    assert Clash(ctx.sha1, claim.poolRef, c, s.poolRef, s.cidr);
  }

  /** The frame of a step that moves one allocator and adds at most one Subnet. */
  lemma PostKeeps(ctx: Context, st: State, store: Store, id: nat, p: Proc)
    requires ReportInv(ctx, st) && WellFiled(ctx, store) && Includes(store, st.store) && Truthful(ctx, store, p)
    ensures ReportInv(ctx, Post(st, store, id, p))
  {
    var st' := Post(st, store, id, p);
    forall k | 0 <= k < |st'.history| ensures Includes(store, st'.history[k]) {
      if k < |st.history| { assert Includes(st.store, st.history[k]); }
    }
    forall i | i in st'.procs ensures Truthful(ctx, store, st'.procs[i]) {
      if i != id { assert Truthful(ctx, st.store, st.procs[i]); }
    }
  }

  lemma AttemptKeeps(ctx: Context, st: State, id: nat, p: Proc, order: seq<Cidr>, createFails: bool)
    requires ReportInv(ctx, st) && p.Trying?
    ensures ReportInv(ctx, AttemptStep(ctx, st, id, p, order, createFails))
  {
    if p.claim.poolRef in ctx.pools && Lists(order, p.used) {
      CandidateShape(p.claim, ctx.pools[p.claim.poolRef], order, p.view);
      match SelectCandidate(p.claim, ctx.pools[p.claim.poolRef], order, p.view)
      case Refused(e) => PostKeeps(ctx, st, st.store, id, Done(p.claim, Refused(e)));
      case Allocated(c) =>
        var name := NameFor(ctx.sha1, p.claim, c);
        if createFails {
          PostKeeps(ctx, st, st.store, id, Done(p.claim, Refused(PlainError("failed to create allocation"))));
        } else if name in st.store {
          PostKeeps(ctx, st, st.store, id, Checking(p.claim, p.retry, p.used + {c}, p.view, c));
        } else {
          PostKeeps(ctx, st, st.store[name := SubnetFor(p.claim, c)], id, Done(p.claim, Allocated(c)));
        }
    }
  }

  lemma CheckKeeps(ctx: Context, st: State, id: nat, p: Proc, getFails: bool)
    requires ReportInv(ctx, st) && NamesDistinct(ctx.sha1, ctx.pools) && p.Checking? && Truthful(ctx, st.store, p)
    ensures ReportInv(ctx, CheckStep(ctx, st, id, p, getFails))
  {
    var name := NameFor(ctx.sha1, p.claim, p.candidate);
    if !getFails && name in st.store && st.store[name].clusterID == p.claim.clusterID {
      FoundIsHeld(ctx, st.store, p.claim, p.candidate);
      PostKeeps(ctx, st, st.store, id, Done(p.claim, Allocated(st.store[name].cidr)));
    } else {
      PostKeeps(ctx, st, st.store, id, Waiting(p.claim, p.retry, p.used - {p.candidate}, p.view));
    }
  }

  lemma BeginKeeps(ctx: Context, st: State, id: nat, claim: ClaimSpec, k: nat, pick: Subnet)
    requires ReportInv(ctx, st) && claim.poolRef in ctx.pools && k < |st.history|
    ensures ReportInv(ctx, BeginStep(st, id, claim, PoolSubnets(st.history[k], claim.poolRef), pick))
  {
    var view := PoolSubnets(st.history[k], claim.poolRef);
    if Existing(view, claim) == {} {
      PostKeeps(ctx, st, st.store, id, Trying(claim, 0, CidrsOf(view), view));
    } else if pick in Existing(view, claim) {
      ListedIsHeld(ctx, st.store, st.history[k], claim, pick);
      PostKeeps(ctx, st, st.store, id, Done(claim, Allocated(pick.cidr)));
    }
  }

  lemma ReportStep(ctx: Context, st: State, e: Event)
    requires ReportInv(ctx, st) && NamesDistinct(ctx.sha1, ctx.pools) && !e.Delete?
    ensures ReportInv(ctx, Step(ctx, st, e))
  {
    match e
    case Begin(id, claim, k, pick) =>
      if claim.poolRef in ctx.pools && k < |st.history| { BeginKeeps(ctx, st, id, claim, k, pick); }
    case Attempt(id, order, createFails) =>
      if id in st.procs && st.procs[id].Trying? { AttemptKeeps(ctx, st, id, st.procs[id], order, createFails); }
    case Check(id, getFails) =>
      if id in st.procs && st.procs[id].Checking? { CheckKeeps(ctx, st, id, st.procs[id], getFails); }
    case Refresh(id, getPoolFails, listFails, k) =>
      if id in st.procs && st.procs[id].Waiting? && k < |st.history| {
        assert Truthful(ctx, st.store, st.procs[id]);
        PostKeeps(ctx, st, st.store, id, Step(ctx, st, e).procs[id]);
      }
  }

  lemma {:induction false} ReportRun(ctx: Context, events: seq<Event>)
    requires NamesDistinct(ctx.sha1, ctx.pools) && forall e :: e in events ==> !e.Delete?
    ensures ReportInv(ctx, Run(ctx, EMPTY, events))
  {
    if events != [] {
      ReportRun(ctx, events[..|events| - 1]);
      ReportStep(ctx, Run(ctx, EMPTY, events[..|events| - 1]), events[|events| - 1]);
    }
  }

  /** Exclusive reports under arbitrary staleness: without deletions, for claims of any size, dynamic or requested,
      every allocator that finished with a CIDR holds the Subnet of that CIDR, so that no CIDR is ever reported to
      two clusters of a pool. */
  lemma StaleReportsExclusive(ctx: Context, events: seq<Event>, i: nat, j: nat)
    requires NamesDistinct(ctx.sha1, ctx.pools) && forall e :: e in events ==> !e.Delete?
    ensures var st := Run(ctx, EMPTY, events);
            && (i in st.procs && st.procs[i].Done? && st.procs[i].outcome.Allocated? ==>
                  Holds(ctx, st.store, st.procs[i].claim, st.procs[i].outcome.cidr))
            && (i in st.procs && j in st.procs && st.procs[i].Done? && st.procs[j].Done?
                && st.procs[i].outcome.Allocated? && st.procs[i].outcome == st.procs[j].outcome
                && st.procs[i].claim.poolRef == st.procs[j].claim.poolRef ==>
                  st.procs[i].claim.clusterID == st.procs[j].claim.clusterID)
  {
    ReportRun(ctx, events);
    var st := Run(ctx, EMPTY, events);
    if i in st.procs { assert Truthful(ctx, st.store, st.procs[i]); }
    if j in st.procs { assert Truthful(ctx, st.store, st.procs[j]); }
  }
}
