/** Several allocators for one cluster: when stale lists leave it with a single Subnet in its pool. */
module Replicas {
  import opened Powers
  import opened Cidrs
  import opened Bitmap
  import opened MarkOrder
  import opened Allocator
  import opened Names
  import opened Protocol
  import opened AllocationLoop
  import opened Claims
  import opened StaleRaces

  // ---------------------------------------------------------------- one allocator per cluster

  /** Allocator `id` has created the Subnet `n`. */
  predicate Made(sha1: Sha1, st: State, n: string, id: nat) {
    && n in st.store && id in st.procs && st.procs[id].Done?
    && st.procs[id].outcome == Allocated(st.store[n].cidr)
    && st.store[n] == SubnetFor(st.procs[id].claim, st.store[n].cidr)
    && n == NameFor(sha1, st.procs[id].claim, st.store[n].cidr)
  }

  ghost predicate AllMade(sha1: Sha1, st: State) {
    forall n :: n in st.store ==> exists id :: Made(sha1, st, n, id)
  }

  /** The frame of a step that moves one unfinished allocator. */
  lemma PostKeepsMade(sha1: Sha1, st: State, store: Store, id: nat, p: Proc)
    requires AllMade(sha1, st) && (id in st.procs ==> !st.procs[id].Done?)
    requires store == st.store
             || (p.Done? && p.outcome.Allocated?
                 && store == st.store[NameFor(sha1, p.claim, p.outcome.cidr) := SubnetFor(p.claim, p.outcome.cidr)])
    ensures AllMade(sha1, Post(st, store, id, p))
  {
    var st' := Post(st, store, id, p);
    forall n | n in store ensures exists i :: Made(sha1, st', n, i) {
      if n in st.store && store[n] == st.store[n] {
        var i :| Made(sha1, st, n, i);
        assert Made(sha1, st', n, i);
      } else {
        assert Made(sha1, st', n, id);
      }
    }
  }

  lemma DeleteKeepsMade(sha1: Sha1, st: State, name: string)
    requires AllMade(sha1, st)
    ensures AllMade(sha1, State(st.store - {name}, st.history + [st.store - {name}], st.procs))
  {
    var st' := State(st.store - {name}, st.history + [st.store - {name}], st.procs);
    forall n | n in st'.store ensures exists i :: Made(sha1, st', n, i) {
      var i :| Made(sha1, st, n, i);
      assert Made(sha1, st', n, i);
    }
  }

  lemma AttemptKeepsMade(ctx: Context, st: State, id: nat, order: seq<Cidr>, createFails: bool)
    requires AllMade(ctx.sha1, st) && id in st.procs && st.procs[id].Trying?
    ensures AllMade(ctx.sha1, AttemptStep(ctx, st, id, st.procs[id], order, createFails))
  {
    var st' := AttemptStep(ctx, st, id, st.procs[id], order, createFails);
    if st' != st { PostKeepsMade(ctx.sha1, st, st'.store, id, st'.procs[id]); }
  }

  lemma StepKeepsMade(ctx: Context, st: State, e: Event)
    requires AllMade(ctx.sha1, st)
    ensures AllMade(ctx.sha1, Step(ctx, st, e))
  {
    match e
    case Delete(name) => DeleteKeepsMade(ctx.sha1, st, name);
    case Attempt(id, order, createFails) =>
      if id in st.procs && st.procs[id].Trying? { AttemptKeepsMade(ctx, st, id, order, createFails); }
    case _ =>
      var st' := Step(ctx, st, e);
      if st' != st { PostKeepsMade(ctx.sha1, st, st.store, e.id, st'.procs[e.id]); }
  }

  /** The allocator was begun with its claim by event `i`. */
  predicate BegunBy(events: seq<Event>, i: nat, id: nat, claim: ClaimSpec) {
    i < |events| && events[i].Begin? && events[i].id == id && events[i].claim == claim
  }

  lemma StepKeepsClaims(ctx: Context, st: State, e: Event, id: nat)
    requires id in Step(ctx, st, e).procs
    ensures id in st.procs ==> Step(ctx, st, e).procs[id].claim == st.procs[id].claim
    ensures id !in st.procs ==> e.Begin? && e.id == id && e.claim == Step(ctx, st, e).procs[id].claim
  {}

  ghost predicate AllBegun(events: seq<Event>, procs: map<nat, Proc>) {
    forall id :: id in procs ==> exists i: nat :: BegunBy(events, i, id, procs[id].claim)
  }

  lemma StepKeepsBegun(ctx: Context, st: State, events: seq<Event>, e: Event)
    requires AllBegun(events, st.procs)
    ensures AllBegun(events + [e], Step(ctx, st, e).procs)
  {
    var procs := Step(ctx, st, e).procs;
    forall id | id in procs ensures exists i: nat :: BegunBy(events + [e], i, id, procs[id].claim) {
      StepKeepsClaims(ctx, st, e, id);
      if id in st.procs {
        var i: nat :| BegunBy(events, i, id, st.procs[id].claim);
        assert BegunBy(events + [e], i, id, procs[id].claim);
      } else {
        assert BegunBy(events + [e], |events|, id, procs[id].claim);
      }
    }
  }

  /** Every Subnet was created by an allocator, and every allocator begun by an event. */
  lemma {:induction false} Origins(ctx: Context, events: seq<Event>)
    ensures AllMade(ctx.sha1, Run(ctx, EMPTY, events)) && AllBegun(events, Run(ctx, EMPTY, events).procs)
  {
    if events != [] {
      var init, e := events[..|events| - 1], events[|events| - 1];
      Origins(ctx, init);
      StepKeepsMade(ctx, Run(ctx, EMPTY, init), e);
      StepKeepsBegun(ctx, Run(ctx, EMPTY, init), init, e);
      assert init + [e] == events;
    }
  }

  predicate IsFor(claim: ClaimSpec, pool: string, cluster: string) {
    claim.poolRef == pool && claim.clusterID == cluster
  }

  /** At most one allocator is begun for the cluster in the pool. */
  predicate BegunOnce(events: seq<Event>, pool: string, cluster: string) {
    forall i, j :: 0 <= i < j < |events| && events[i].Begin? && events[j].Begin? ==>
      !(IsFor(events[i].claim, pool, cluster) && IsFor(events[j].claim, pool, cluster))
  }

  predicate IsSubnetOf(store: Store, pool: string, cluster: string, n: string) {
    n in store && store[n].poolRef == pool && store[n].clusterID == cluster
  }

  /** The cluster has at most one Subnet in the pool. */
  ghost predicate AtMostOne(store: Store, pool: string, cluster: string) {
    forall n, m :: IsSubnetOf(store, pool, cluster, n) && IsSubnetOf(store, pool, cluster, m) ==> n == m
  }

  /** One allocator, one Subnet: in every stale run, with deletions, failures, requested CIDRs and mixed sizes, a
      cluster for which at most one allocator is begun in a pool has at most one Subnet there. */
  lemma OneSubnetPerCluster(ctx: Context, events: seq<Event>, pool: string, cluster: string)
    requires BegunOnce(events, pool, cluster)
    ensures AtMostOne(Run(ctx, EMPTY, events).store, pool, cluster)
  {
    Origins(ctx, events);
    var st := Run(ctx, EMPTY, events);
    forall n, m | IsSubnetOf(st.store, pool, cluster, n) && IsSubnetOf(st.store, pool, cluster, m) ensures n == m {
      OneMaker(ctx.sha1, st, events, pool, cluster, n, m);
    }
  }

  lemma OneMaker(sha1: Sha1, st: State, events: seq<Event>, pool: string, cluster: string, n: string, m: string)
    requires AllMade(sha1, st) && AllBegun(events, st.procs) && BegunOnce(events, pool, cluster)
    requires IsSubnetOf(st.store, pool, cluster, n) && IsSubnetOf(st.store, pool, cluster, m)
    ensures n == m
  {
    var i :| Made(sha1, st, n, i);
    var j :| Made(sha1, st, m, j);
    var x: nat :| BegunBy(events, x, i, st.procs[i].claim);
    var y: nat :| BegunBy(events, y, j, st.procs[j].claim);
    assert IsFor(events[x].claim, pool, cluster) && IsFor(events[y].claim, pool, cluster);
    assert x == y;
  }

  // ---------------------------------------------------------------- the second allocator of a cluster

  /** The cluster of the claim has exactly one Subnet in its pool, with CIDR `c`. */
  ghost predicate Sole(store: Store, claim: ClaimSpec, c: Cidr) {
    && AtMostOne(store, claim.poolRef, claim.clusterID)
    && exists n :: IsSubnetOf(store, claim.poolRef, claim.clusterID, n) && store[n].cidr == c
  }

  lemma SoleIsNamed(ctx: Context, store: Store, claim: ClaimSpec, c: Cidr, n: string)
    requires WellFiled(ctx, store) && Sole(store, claim, c)
    ensures IsSubnetOf(store, claim.poolRef, claim.clusterID, n) ==> store[n].cidr == c
    ensures Holds(ctx, store, claim, c)
  {
    var k :| IsSubnetOf(store, claim.poolRef, claim.clusterID, k) && store[k].cidr == c;
    assert k == NameFor(ctx.sha1, claim, c);
  }

  /** When does an allocator whose cluster has a Subnet already end up with that very CIDR: at the beginning exactly if
      its list, of whatever age, shows the Subnet... */
  lemma SameAtBeginIff(ctx: Context, st: State, id: nat, claim: ClaimSpec, k: nat, pick: Subnet, c: Cidr)
    requires ReportInv(ctx, st) && Sole(st.store, claim, c) && k < |st.history|
    requires id !in st.procs && claim.poolRef in ctx.pools
    ensures var view, st' := PoolSubnets(st.history[k], claim.poolRef), Step(ctx, st, Begin(id, claim, k, pick));
            Existing(view, claim) == {} || pick in Existing(view, claim) ==>
              id in st'.procs && (st'.procs[id] == Done(claim, Allocated(c)) <==> Existing(view, claim) != {})
  {
    var view := PoolSubnets(st.history[k], claim.poolRef);
    if pick in Existing(view, claim) {
      ListedIsHeld(ctx, st.store, st.history[k], claim, pick);
      SoleIsNamed(ctx, st.store, claim, c, NameFor(ctx.sha1, claim, pick.cidr));
    }
  }

  /** ...and in every later round exactly if its candidate happens to be that CIDR, since the rounds do not look for
      Subnets of the cluster again. */
  lemma SameLaterIff(ctx: Context, st: State, id: nat, order: seq<Cidr>, c: Cidr)
    requires ReportInv(ctx, st) && NamesDistinct(ctx.sha1, ctx.pools)
    requires id in st.procs && st.procs[id].Trying? && Lists(order, st.procs[id].used)
    requires Sole(st.store, st.procs[id].claim, c)
    ensures var claim := st.procs[id].claim;
            var st' := Run(ctx, st, [Attempt(id, order, false), Check(id, false)]);
            && claim.poolRef in ctx.pools && id in st'.procs
            && (st'.procs[id] == Done(claim, Allocated(c)) <==>
                SelectCandidate(claim, ctx.pools[claim.poolRef], order, st.procs[id].view) == Allocated(c))
  {
    var p := st.procs[id];
    assert Truthful(ctx, st.store, p);
    RunTwo(ctx, st, Attempt(id, order, false), Check(id, false));
    var r := SelectCandidate(p.claim, ctx.pools[p.claim.poolRef], order, p.view);
    SoleIsNamed(ctx, st.store, p.claim, c, "");
    if r.Allocated? {
      AttemptMakes(ctx, st, id, p, order, r.cidr);
      CandidateShape(p.claim, ctx.pools[p.claim.poolRef], order, p.view);
      RoundEnds(ctx, st, id, p, r.cidr, c);
    }
  }

  lemma RoundEnds(ctx: Context, st: State, id: nat, p: Proc, d: Cidr, c: Cidr)
    requires WellFiled(ctx, st.store) && NamesDistinct(ctx.sha1, ctx.pools) && p.Trying? && p.claim.poolRef in ctx.pools
    requires Within(d, ctx.pools[p.claim.poolRef].cidr) && Sole(st.store, p.claim, c)
    ensures var st' := Step(ctx, Attempted(ctx, st, id, p, d), Check(id, false));
            id in st'.procs && (st'.procs[id] == Done(p.claim, Allocated(c)) <==> d == c)
  {
    var name := NameFor(ctx.sha1, p.claim, d);
    SoleIsNamed(ctx, st.store, p.claim, c, name);
    if name in st.store {
      NamedIsFiled(ctx, st.store, p.claim, d);
      TakenRound(ctx, st, id, p, d);
    } else {
      FreeRound(ctx, st, id, p, d);
    }
  }

  lemma FreeRound(ctx: Context, st: State, id: nat, p: Proc, d: Cidr)
    requires p.Trying? && NameFor(ctx.sha1, p.claim, d) !in st.store
    ensures var st' := Step(ctx, Attempted(ctx, st, id, p, d), Check(id, false));
            id in st'.procs && st'.procs[id] == Done(p.claim, Allocated(d))
  {}

  lemma TakenRound(ctx: Context, st: State, id: nat, p: Proc, d: Cidr)
    requires p.Trying? && NameFor(ctx.sha1, p.claim, d) in st.store
    ensures var s := st.store[NameFor(ctx.sha1, p.claim, d)];
            var st' := Step(ctx, Attempted(ctx, st, id, p, d), Check(id, false));
            && id in st'.procs
            && if s.clusterID == p.claim.clusterID then st'.procs[id] == Done(p.claim, Allocated(s.cidr))
               else st'.procs[id].Waiting?
  {
    var st1 := Attempted(ctx, st, id, p, d);
    assert Step(ctx, st1, Check(id, false)) == CheckStep(ctx, st1, id, st1.procs[id], false);
  }

  lemma NamedIsFiled(ctx: Context, store: Store, claim: ClaimSpec, d: Cidr)
    requires WellFiled(ctx, store) && NamesDistinct(ctx.sha1, ctx.pools) && claim.poolRef in ctx.pools
    requires Within(d, ctx.pools[claim.poolRef].cidr) && NameFor(ctx.sha1, claim, d) in store
    ensures var s := store[NameFor(ctx.sha1, claim, d)];
            s.poolRef == claim.poolRef && s.cidr == d
  {
    var s := store[NameFor(ctx.sha1, claim, d)];
    assert Clash(ctx.sha1, claim.poolRef, d, s.poolRef, s.cidr);
  }

  // ---------------------------------------------------------------- a cluster with two Subnets

  /** Allocators `i` and `j` have finished for the same claim with disjoint CIDRs, and both hold them. */
  predicate Twins(ctx: Context, st: State, claim: ClaimSpec, i: nat, c: Cidr, j: nat, d: Cidr) {
    && i in st.procs && st.procs[i] == Done(claim, Allocated(c)) && Holds(ctx, st.store, claim, c)
    && j in st.procs && st.procs[j] == Done(claim, Allocated(d)) && Holds(ctx, st.store, claim, d)
    && c != d && Disjoint(c, d)
  }

  lemma BlockFiled(sha1: Sha1, p: string, blocks: seq<Cidr>, store: Store, i: nat)
    requires Filled(sha1, p, blocks, store) && i < |blocks|
    ensures var n := EncodeAllocationName(sha1, p, blocks[i]);
            n in store && store[n] == Subnet(p, blocks[i], Tag(i))
  {
    assert HasBlock(sha1, p, blocks, i, store);
  }

  /** The first block belongs to another cluster than that of the claim, and allocator 0 has its list of the empty
      pool. */
  lemma FirstContended(ctx: Context, p: string, size: nat, blocks: seq<Cidr>, st: State)
    requires p in ctx.pools && Usable(ctx.pools[p], size) && blocks != [] && Filled(ctx.sha1, p, blocks, st.store)
    requires blocks[0] == BlockAt(Mask(ctx.pools[p].cidr), size, 0)
    requires 0 in st.procs && st.procs[0] == Trying(Filling(p, size, 1), 0, {}, {})
    ensures Contended(ctx, st, 0, [])
  {
    BlockFiled(ctx.sha1, p, blocks, st.store, 0);
    EmptyPoolCandidate(Filling(p, size, 1), ctx.pools[p]);
    assert |Tag(0)| == 0 && |Tag(1)| == 1;
    assert Lists([], {}) && Tiled(Mask(ctx.pools[p].cidr), {}) && CidrsOf({}) == {};
  }

  lemma ThirdIsFree(sha1: Sha1, p: string, pool: Pool, size: nat, store: Store)
    requires Usable(pool, size) && TotalBlocks(Mask(pool.cidr), size) > 2 && NamesDistinct(sha1, map[p := pool])
    requires Filled(sha1, p, Blocks(pool, size, 2), store)
    ensures var c := BlockAt(Mask(pool.cidr), size, 2);
            EncodeAllocationName(sha1, p, c) !in store && Disjoint(c, BlockAt(Mask(pool.cidr), size, 1))
            && c != BlockAt(Mask(pool.cidr), size, 1)
  {
    NextIsFree(sha1, p, pool, size, 2, store);
    BlocksDiffer(pool, size, 1, 2);
  }

  /** Events of running allocators in which nothing goes wrong. */
  ghost predicate Onward(events: seq<Event>) {
    AllSmooth(events) && forall e :: e in events ==> !e.Begin?
  }

  lemma AskingOnward(claim: ClaimSpec, p: string, size: nat, before: seq<Event>, after: seq<Event>)
    requires claim == Wants(p, claim.clusterID, size) && AskingBehind(claim, p, size, before) && Onward(after)
    ensures Asking(p, size, before + after)
  {
    assert forall i :: 0 <= i < |after| ==> after[i] in after && !after[i].Begin?;
  }

  lemma RetryOnward(order: seq<Cidr>, k: nat, order': seq<Cidr>)
    ensures Onward(Retry(0, order, false, k) + [Attempt(0, order', false)])
  {}

  /** Allocator 0 meets the conflict on the first block, lists again, and creates the third. */
  lemma ThirdRound(ctx: Context, p: string, size: nat, st: State) returns (events: seq<Event>, c: Cidr, d: Cidr)
    requires p in ctx.pools && Usable(ctx.pools[p], size) && TotalBlocks(Mask(ctx.pools[p].cidr), size) > 2
    requires NamesDistinct(ctx.sha1, map[p := ctx.pools[p]])
    requires var a := Filling(p, size, 1);
             FillState(ctx.sha1, p, size, Blocks(ctx.pools[p], size, 2), Trying(a, 0, {}, {}), st)
    ensures Onward(events) && Twins(ctx, Run(ctx, st, events), Filling(p, size, 1), 0, c, 2, d)
  {
    var pool, a, blocks := ctx.pools[p], Filling(p, size, 1), Blocks(ctx.pools[p], size, 2);
    FirstContended(ctx, p, size, blocks, st);
    var st1 := AfterRetry(ctx, p, size, blocks, st);
    var last := ThirdMade(ctx, p, size, st, st1);
    c, d := BlockAt(Mask(pool.cidr), size, 2), blocks[1];
    assert IsDone(p, size, blocks, 1, st);
    ThirdIsFree(ctx.sha1, p, pool, size, st.store);
    BlockFiled(ctx.sha1, p, blocks, st.store, 1);
    NowTwins(ctx, st1, a, c, d);
    events := Retry(0, [], false, 5) + [last];
    RetryOnward([], 5, blocks);
    RunMore(ctx, st, Retry(0, [], false, 5), last);
  }

  lemma AfterRetry(ctx: Context, p: string, size: nat, blocks: seq<Cidr>, st: State) returns (st1: State)
    requires Contended(ctx, st, 0, []) && |blocks| == 2
    requires FillState(ctx.sha1, p, size, blocks, Trying(Filling(p, size, 1), 0, {}, {}), st)
    ensures st1 == Run(ctx, st, Retry(0, [], false, 5)) && st1.store == st.store
    ensures var view := PoolSubnets(st.store, p);
            0 in st1.procs && st1.procs[0] == Trying(Filling(p, size, 1), 1, {} + CidrsOf(view), view)
    ensures 2 in st.procs ==> 2 in st1.procs && st1.procs[2] == st.procs[2]
  {
    assert st.history[5] == st.store;
    ConflictForgets(ctx, st, 0, [], false, 5);
    st1 := Run(ctx, st, Retry(0, [], false, 5));
  }

  /** Stale lists break idempotency: two allocators of one and the same claim, of which the first lists the pool too
      early, end up with different CIDRs, although names are distinct, nothing is deleted and no request fails. */
  lemma StaleTwins(ctx: Context, p: string, size: nat) returns (events: seq<Event>, c: Cidr, d: Cidr)
    requires p in ctx.pools && Usable(ctx.pools[p], size) && TotalBlocks(Mask(ctx.pools[p].cidr), size) > 2
    requires NamesDistinct(ctx.sha1, map[p := ctx.pools[p]])
    ensures Asking(p, size, events)
    ensures Twins(ctx, Run(ctx, EMPTY, events), Filling(p, size, 1), 0, c, 2, d)
  {
    var a := Filling(p, size, 1);
    var before, st := FillBehind(ctx, a, size, 2);
    var more;
    more, c, d := ThirdRound(ctx, p, size, st);
    AskingOnward(a, p, size, before, more);
    RunInSteps(ctx, EMPTY, before, more);
    events := before + more;
  }

  lemma NowTwins(ctx: Context, st: State, claim: ClaimSpec, c: Cidr, d: Cidr)
    requires 0 in st.procs && st.procs[0].Trying? && st.procs[0].claim == claim
    requires NameFor(ctx.sha1, claim, c) !in st.store
    requires 2 in st.procs && st.procs[2] == Done(claim, Allocated(d)) && Holds(ctx, st.store, claim, d)
    requires c != d && Disjoint(c, d)
    ensures Twins(ctx, Attempted(ctx, st, 0, st.procs[0], c), claim, 0, c, 2, d)
  {}

  lemma ThirdMade(ctx: Context, p: string, size: nat, st: State, st1: State) returns (last: Event)
    requires p in ctx.pools && Usable(ctx.pools[p], size) && TotalBlocks(Mask(ctx.pools[p].cidr), size) > 2
    requires Filled(ctx.sha1, p, Blocks(ctx.pools[p], size, 2), st.store) && st1.store == st.store
    requires var view := PoolSubnets(st.store, p);
             0 in st1.procs && st1.procs[0] == Trying(Filling(p, size, 1), 1, {} + CidrsOf(view), view)
    ensures last == Attempt(0, Blocks(ctx.pools[p], size, 2), false)
    ensures var c := BlockAt(Mask(ctx.pools[p].cidr), size, 2);
            Step(ctx, st1, last) == Attempted(ctx, st1, 0, st1.procs[0], c)
  {
    var pool, a, blocks := ctx.pools[p], Filling(p, size, 1), Blocks(ctx.pools[p], size, 2);
    FilledCidrs(ctx.sha1, p, blocks, st.store);
    BlocksListed(pool, size, 2);
    NextCandidate(a, pool, 2, st1.procs[0].view);
    assert {} + Elements(blocks) == Elements(blocks);
    AttemptMakes(ctx, st1, 0, st1.procs[0], blocks, BlockAt(Mask(pool.cidr), size, 2));
    last := Attempt(0, blocks, false);
  }

  /** The claim is bound by one of two such reconcilers; then the other writes its status over that of the first, and
      the claim is Bound to another CIDR, although nothing was wrong with the pool or the claim. */
  lemma BindingOverwritten(ctx: Context, p: string, size: nat) returns (events: seq<Event>, c: Cidr, d: Cidr)
    requires p in ctx.pools && Usable(ctx.pools[p], size) && TotalBlocks(Mask(ctx.pools[p].cidr), size) > 2
    requires NamesDistinct(ctx.sha1, map[p := ctx.pools[p]])
    ensures Asking(p, size, events) && Twins(ctx, Run(ctx, EMPTY, events), Filling(p, size, 1), 0, c, 2, d)
    ensures var claim := Claim(Filling(p, size, 1), 1, NEW_STATUS);
            var latest := AfterUpdate(claim, Conclude(claim, Allocated(d)), claim, false);
            var after := AfterUpdate(claim, Conclude(claim, Allocated(c)), latest, false);
            && IsBound(latest) && latest.status.cidr == Some(d)
            && IsBound(after) && after.status.cidr == Some(c) && c != d
  {
    events, c, d := StaleTwins(ctx, p, size);
  }

  // ---------------------------------------------------------------- when repeated allocators are harmless

  /** Claims on the pool can be given one CIDR only. */
  ghost predicate OneOffer(pool: Pool, demand: Demand) {
    forall c, d :: Offered(pool, demand, c) && Offered(pool, demand, d) ==> c == d
  }

  lemma InvAtMostOne(ctx: Context, pool: string, demand: Demand, st: State, cluster: string)
    requires pool in ctx.pools && Inv(ctx, pool, demand, st) && OneOffer(ctx.pools[pool], demand)
    ensures AtMostOne(st.store, pool, cluster)
  {
    forall n, m | IsSubnetOf(st.store, pool, cluster, n) && IsSubnetOf(st.store, pool, cluster, m) ensures n == m {
      assert Filed(ctx, pool, demand, n, st.store[n]) && Filed(ctx, pool, demand, m, st.store[m]);
    }
  }

  /** Two allocators of one cluster race for different CIDRs. */
  lemma ClusterRace(ctx: Context, a: ClaimSpec, c: Cidr, b: ClaimSpec, d: Cidr)
    requires Firsts(ctx, a, c, b, d) && a.clusterID == b.clusterID && !Clash(ctx.sha1, a.poolRef, c, a.poolRef, d)
    ensures !AtMostOne(Run(ctx, EMPTY, Race(a, b)).store, a.poolRef, a.clusterID)
  {
    var st := RaceRuns(ctx, a, c, b, d);
    var n, k := NameFor(ctx.sha1, a, c), NameFor(ctx.sha1, b, d);
    assert IsSubnetOf(st.store, a.poolRef, a.clusterID, n) && IsSubnetOf(st.store, a.poolRef, a.clusterID, k);
  }

  /** The second allocator cannot read the owner of the first block, lists again, and creates the second. */
  function LostRead(second: seq<Cidr>): seq<Event> {
    [Check(1, true), Refresh(1, false, false, 4), Attempt(1, second, false)]
  }

  lemma ListsAgain(ctx: Context, st: State, a: ClaimSpec, b0: Cidr) returns (st2: State)
    requires |st.history| == 5 && st.history[4] == st.store
    requires st.store == map[NameFor(ctx.sha1, a, b0) := SubnetFor(a, b0)]
    requires 1 in st.procs && st.procs[1] == Checking(a, 0, {b0}, {}, b0)
    ensures st2 == Step(ctx, Step(ctx, st, Check(1, true)), Refresh(1, false, false, 4)) && st2.store == st.store
    ensures 1 in st2.procs && st2.procs[1] == Trying(a, 1, {b0}, {SubnetFor(a, b0)})
  {
    var n, s := NameFor(ctx.sha1, a, b0), SubnetFor(a, b0);
    var st1 := Post(st, st.store, 1, Waiting(a, 0, {}, {}));
    assert {b0} - {b0} == {} && {} + {b0} == {b0};
    assert Step(ctx, st, Check(1, true)) == CheckStep(ctx, st, 1, st.procs[1], true) == st1;
    assert n in st.store && PoolSubnets(st.store, a.poolRef) == {s} && CidrsOf({s}) == {b0};
    assert st1.history[4] == st.store;
    RefreshAfterConflict(ctx, st1, 1, Trying(a, 0, {}, {}), false, 4);
    st2 := Post(st1, st1.store, 1, Trying(a, 1, {b0}, {s}));
  }

  lemma SecondRound(ctx: Context, st: State, a: ClaimSpec, b0: Cidr, b1: Cidr)
    requires a.poolRef in ctx.pools && |st.history| == 5 && st.history[4] == st.store
    requires st.store == map[NameFor(ctx.sha1, a, b0) := SubnetFor(a, b0)]
    requires 1 in st.procs && st.procs[1] == Checking(a, 0, {b0}, {}, b0)
    requires SelectCandidate(a, ctx.pools[a.poolRef], [b0], {SubnetFor(a, b0)}) == Allocated(b1)
    requires NameFor(ctx.sha1, a, b1) != NameFor(ctx.sha1, a, b0)
    ensures !AtMostOne(Run(ctx, st, LostRead([b0])).store, a.poolRef, a.clusterID)
  {
    var st2 := ListsAgain(ctx, st, a, b0);
    assert Elements([b0]) == {b0};
    AttemptMakes(ctx, st2, 1, st2.procs[1], [b0], b1);
    RunThree(ctx, st, Check(1, true), Refresh(1, false, false, 4), Attempt(1, [b0], false));
    TwoSubnets(ctx, st2, st2.procs[1], b0, b1);
  }

  lemma TwoSubnets(ctx: Context, st: State, p: Proc, b0: Cidr, b1: Cidr)
    requires p.Trying? && st.store == map[NameFor(ctx.sha1, p.claim, b0) := SubnetFor(p.claim, b0)]
    requires NameFor(ctx.sha1, p.claim, b1) != NameFor(ctx.sha1, p.claim, b0)
    ensures !AtMostOne(Attempted(ctx, st, 1, p, b1).store, p.claim.poolRef, p.claim.clusterID)
  {
    var n, k := NameFor(ctx.sha1, p.claim, b0), NameFor(ctx.sha1, p.claim, b1);
    var store := Attempted(ctx, st, 1, p, b1).store;
    assert IsSubnetOf(store, p.claim.poolRef, p.claim.clusterID, n);
    assert IsSubnetOf(store, p.claim.poolRef, p.claim.clusterID, k);
  }

  lemma SecondBlockTwins(ctx: Context, p: string, demand: Demand, size: nat) returns (events: seq<Event>)
    requires p in ctx.pools && Usable(ctx.pools[p], size) && TotalBlocks(Mask(ctx.pools[p].cidr), size) > 1
    requires NamesDistinct(ctx.sha1, map[p := ctx.pools[p]]) && size in demand.sizes
    ensures EventsOk(ctx, p, demand, events) && !AtMostOne(Run(ctx, EMPTY, events).store, p, "a")
  {
    var pool, a := ctx.pools[p], Wants(p, "a", size);
    var b0, b1 := BlockAt(Mask(pool.cidr), size, 0), BlockAt(Mask(pool.cidr), size, 1);
    var st := FirstTwice(ctx, a, size, b0);
    SecondIsNext(ctx.sha1, pool, a, size, b0, b1);
    SecondRound(ctx, st, a, b0, b1);
    RunInSteps(ctx, EMPTY, Race(a, a), LostRead([b0]));
    RaceAdmitted(ctx, p, demand, a, a);
    StillAdmitted(ctx, p, demand, Race(a, a), b0);
    events := Race(a, a) + LostRead([b0]);
  }

  lemma SecondIsNext(sha1: Sha1, pool: Pool, a: ClaimSpec, size: nat, b0: Cidr, b1: Cidr)
    requires a.requested.None? && a.blockSize == size && NamesDistinct(sha1, map[a.poolRef := pool])
    requires Usable(pool, size) && TotalBlocks(Mask(pool.cidr), size) > 1
    requires b0 == BlockAt(Mask(pool.cidr), size, 0) && b1 == BlockAt(Mask(pool.cidr), size, 1)
    ensures SelectCandidate(a, pool, [b0], {SubnetFor(a, b0)}) == Allocated(b1)
    ensures NameFor(sha1, a, b1) != NameFor(sha1, a, b0)
  {
    BlocksDiffer(pool, size, 0, 1);
    NamedApart(sha1, a.poolRef, pool, b0, b1);
    NextCandidate(a, pool, 1, {SubnetFor(a, b0)});
    assert Blocks(pool, size, 1) == [b0];
  }

  lemma StillAdmitted(ctx: Context, p: string, demand: Demand, events: seq<Event>, b0: Cidr)
    requires p in ctx.pools && EventsOk(ctx, p, demand, events)
    ensures EventsOk(ctx, p, demand, events + LostRead([b0]))
  {
    var more := events + LostRead([b0]);
    forall i | 0 <= i < |more| && more[i].Begin? ensures Admits(ctx, p, demand, more[i].claim) {
      assert i < |events| && more[i] == events[i];
    }
  }

  /** Both allocators of one claim propose the first block. */
  lemma FirstTwice(ctx: Context, a: ClaimSpec, size: nat, b0: Cidr) returns (st: State)
    requires a.poolRef in ctx.pools && a.requested.None? && a.blockSize == size && Usable(ctx.pools[a.poolRef], size)
    requires b0 == BlockAt(Mask(ctx.pools[a.poolRef].cidr), size, 0)
    ensures st == Run(ctx, EMPTY, Race(a, a)) && st.store == map[NameFor(ctx.sha1, a, b0) := SubnetFor(a, b0)]
    ensures |st.history| == 5 && st.history[4] == st.store
    ensures 1 in st.procs && st.procs[1] == Checking(a, 0, {b0}, {}, b0)
  {
    BlocksFirst(ctx, a, size, a, size);
    st := RaceRuns(ctx, a, b0, a, b0);
  }

  /** A requested CIDR against the whole pool as a block. */
  lemma WholePoolTwins(ctx: Context, p: string, demand: Demand, c: Cidr, size: nat) returns (events: seq<Event>)
    requires p in ctx.pools && NamesDistinct(ctx.sha1, map[p := ctx.pools[p]])
    requires Within(c, ctx.pools[p].cidr) && c in demand.requested && size in demand.sizes && Usable(ctx.pools[p], size)
    requires c != BlockAt(Mask(ctx.pools[p].cidr), size, 0)
    ensures EventsOk(ctx, p, demand, events) && !AtMostOne(Run(ctx, EMPTY, events).store, p, "a")
  {
    var pool, a, b := ctx.pools[p], Requests(p, "a", c), Wants(p, "a", size);
    var d := FirstBlockOffered(pool, demand, size);
    EmptyPoolRequest(a, pool);
    EmptyPoolCandidate(b, pool);
    NamedApart(ctx.sha1, p, pool, c, d);
    ClusterRace(ctx, a, c, b, d);
    RaceAdmitted(ctx, p, demand, a, b);
    events := Race(a, b);
  }

  lemma RequestTwins(ctx: Context, p: string, demand: Demand, c: Cidr, d: Cidr) returns (events: seq<Event>)
    requires p in ctx.pools && NamesDistinct(ctx.sha1, map[p := ctx.pools[p]]) && c != d
    requires Within(c, ctx.pools[p].cidr) && Within(d, ctx.pools[p].cidr)
    requires c in demand.requested && d in demand.requested
    ensures EventsOk(ctx, p, demand, events) && !AtMostOne(Run(ctx, EMPTY, events).store, p, "a")
  {
    var pool, a, b := ctx.pools[p], Requests(p, "a", c), Requests(p, "a", d);
    EmptyPoolRequest(a, pool);
    EmptyPoolRequest(b, pool);
    NamedApart(ctx.sha1, p, pool, c, d);
    ClusterRace(ctx, a, c, b, d);
    RaceAdmitted(ctx, p, demand, a, b);
    events := Race(a, b);
  }

  /** A pool has more than one block of every usable size longer than its own. */
  lemma SeveralBlocks(pool: Pool, c: Cidr)
    requires Within(c, pool.cidr) && Network(c) == c.addr && Usable(pool, c.len)
    ensures TotalBlocks(Mask(pool.cidr), c.len) > 1 || c == BlockAt(Mask(pool.cidr), c.len, 0)
  {
    var k := BlockNumber(pool, c);
  }

  lemma TwinRuns(ctx: Context, p: string, demand: Demand, c: Cidr, d: Cidr) returns (events: seq<Event>)
    requires p in ctx.pools && NamesDistinct(ctx.sha1, map[p := ctx.pools[p]])
    requires Offered(ctx.pools[p], demand, c) && Offered(ctx.pools[p], demand, d) && c != d
    ensures EventsOk(ctx, p, demand, events) && !AtMostOne(Run(ctx, EMPTY, events).store, p, "a")
  {
    var pool := ctx.pools[p];
    if c in demand.requested && d in demand.requested {
      events := RequestTwins(ctx, p, demand, c, d);
    } else {
      var block, other := if c in demand.requested then d else c, if c in demand.requested then c else d;
      SeveralBlocks(pool, block);
      if TotalBlocks(Mask(pool.cidr), block.len) > 1 {
        events := SecondBlockTwins(ctx, p, demand, block.len);
      } else if other in demand.requested {
        events := WholePoolTwins(ctx, p, demand, other, block.len);
      } else {
        SeveralBlocks(pool, other);
        OneBlockOnly(pool, block, other);
        events := SecondBlockTwins(ctx, p, demand, other.len);
      }
    }
  }

  lemma OneBlockOnly(pool: Pool, c: Cidr, d: Cidr)
    requires Within(c, pool.cidr) && Within(d, pool.cidr) && c != d && Network(c) == c.addr && Network(d) == d.addr
    requires Usable(pool, c.len) && Usable(pool, d.len) && TotalBlocks(Mask(pool.cidr), c.len) <= 1
    ensures TotalBlocks(Mask(pool.cidr), d.len) > 1
  {
    SeveralBlocks(pool, c);
    SeveralBlocks(pool, d);
    if c.len > pool.cidr.len { Pow2Grows(0, c.len - pool.cidr.len); }
    if d.len > pool.cidr.len { Pow2Grows(0, d.len - pool.cidr.len); }
  }

  /** Exactly when allocators may be begun repeatedly for a cluster, with lists of any age: every run leaves every
      cluster with at most one Subnet in the pool if and only if there is only one CIDR that claims on the pool can be
      given. */
  lemma RepeatsHarmlessIff(ctx: Context, pool: string, demand: Demand)
    requires pool in ctx.pools && NamesDistinct(ctx.sha1, map[pool := ctx.pools[pool]])
    ensures (forall events, cluster :: EventsOk(ctx, pool, demand, events) ==>
               AtMostOne(Run(ctx, EMPTY, events).store, pool, cluster))
            <==> OneOffer(ctx.pools[pool], demand)
  {
    if OneOffer(ctx.pools[pool], demand) {
      forall events, cluster | EventsOk(ctx, pool, demand, events)
        ensures AtMostOne(Run(ctx, EMPTY, events).store, pool, cluster)
      {
        RunKeepsInv(ctx, pool, demand, EMPTY, events);
        InvAtMostOne(ctx, pool, demand, Run(ctx, EMPTY, events), cluster);
      }
    } else {
      var c, d :| Offered(ctx.pools[pool], demand, c) && Offered(ctx.pools[pool], demand, d) && c != d;
      var events := TwinRuns(ctx, pool, demand, c, d);
    }
  }
}
