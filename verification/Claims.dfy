/** Reconciling one SubnetClaim: `processClaimReconciliation`, `updateClaimStatus`, `validateClaim`. */
module Claims {
  import opened Cidrs
  import opened MarkOrder
  import opened Allocator
  import opened Names
  import opened Protocol
  import opened AllocationLoop

  const OUTER_RETRIES: nat := 65
  const CONFLICT_STEPS: nat := 5
  const NOT_FOUND_RETRIES: nat := 3

  datatype Phase = Unset | Pending | Bound | Error

  /** `ready` is the Ready condition, absent before the first status update. */
  datatype ClaimStatus = ClaimStatus(
    phase: Phase, cidr: Option<Cidr>, message: string, observed: nat, ready: Option<bool>)

  datatype Claim = Claim(spec: ClaimSpec, generation: nat, status: ClaimStatus)

  const NEW_STATUS: ClaimStatus := ClaimStatus(Unset, None, "", 0, None)

  /** Bound: a CIDR, no message, Ready. Error: a message, no CIDR, not Ready. Otherwise the claim is new. */
  predicate StatusOk(s: ClaimStatus) {
    match s.phase
    case Bound => s.cidr.Some? && s.message == "" && s.ready == Some(true)
    case Error => s.cidr.None? && s.message != "" && s.ready == Some(false)
    case _ => s == NEW_STATUS
  }

  // ---------------------------------------------------------------- specification

  function Applied(latest: Claim, phase: Phase, cidr: Option<Cidr>, message: string): Claim {
    latest.(status := ClaimStatus(phase, cidr, message, latest.generation, Some(phase == Bound)))
  }

  predicate Unchanged(claim: Claim, phase: Phase, cidr: Option<Cidr>, message: string) {
    claim.status.phase == phase && claim.status.cidr == cidr && claim.status.message == message
  }

  /** A status update that meets no failure. */
  function WithStatus(claim: Claim, phase: Phase, cidr: Option<Cidr>, message: string): Claim {
    if Unchanged(claim, phase, cidr, message) then claim else Applied(claim, phase, cidr, message)
  }

  /** The error of `validateClaim`, if there is one. */
  function ValidateClaim(spec: ClaimSpec, pool: Pool): (e: Option<string>)
    ensures e.Some? ==> e.value != ""
  {
    if spec.blockSize != 0 && pool.minBlockSize != 0 && spec.blockSize < pool.minBlockSize then
      Some("blockSize is smaller than pool minimum")
    else if spec.blockSize != 0 && pool.maxBlockSize != 0 && spec.blockSize > pool.maxBlockSize then
      Some("blockSize is larger than pool maximum")
    else if spec.requested.None? then None
    else if spec.requested.value.Foreign? && !spec.requested.value.parses then Some("invalid requested CIDR format")
    else if pool.cidr.Foreign? && !pool.cidr.parses then Some("invalid pool CIDR format")
    else if spec.requested.value.Foreign? || pool.cidr.Foreign? then Some("requested CIDR is outside pool")
    else if !NetContains(pool.cidr, Network(spec.requested.value)) then Some("requested CIDR is outside pool")
    else if pool.minBlockSize != 0 && spec.requested.value.len < pool.minBlockSize then
      Some("requested CIDR prefix length is smaller than pool minimum")
    else if pool.maxBlockSize != 0 && spec.requested.value.len > pool.maxBlockSize then
      Some("requested CIDR prefix length is larger than pool maximum")
    else None
  }

  /** The limits of the pool, where zero means none. */
  predicate WithinLimits(pool: Pool, len: nat) {
    (pool.minBlockSize != 0 ==> pool.minBlockSize <= len) && (pool.maxBlockSize != 0 ==> len <= pool.maxBlockSize)
  }

  /** A claim is valid exactly when the sizes it names respect the limits of the pool and its requested CIDR starts
      in the pool; that the CIDR also ends there is left to the allocator. */
  lemma ValidClaimExact(spec: ClaimSpec, pool: Pool)
    ensures ValidateClaim(spec, pool).None? <==>
            && (spec.blockSize == 0 || WithinLimits(pool, spec.blockSize))
            && (spec.requested.Some? ==>
                  var c := spec.requested.value;
                  c.V4? && pool.cidr.V4? && Has(pool.cidr, Network(c)) && WithinLimits(pool, c.len))
  {
    if spec.requested.Some? && spec.requested.value.V4? && pool.cidr.V4? {
      ContainsIsMembership(pool.cidr, Network(spec.requested.value));
    }
  }

  function PoolNotFound(spec: ClaimSpec): string {
    "Pool " + spec.poolRef + " not found"
  }

  const WRONG_POOL: string := "Existing allocation for ClusterID found but in different pool"

  predicate IsBound(claim: Claim) {
    claim.status.phase == Bound && claim.status.cidr.Some?
  }

  /** The claim needs an allocation and may have one. */
  predicate Reaches(ctx: Context, claim: Claim) {
    && !IsBound(claim) && claim.spec.poolRef in ctx.pools
    && ValidateClaim(claim.spec, ctx.pools[claim.spec.poolRef]).None?
  }

  function ErrorMessage(pool: string, e: AllocError): string {
    if e.ExhaustedError? then "Pool " + pool + " is exhausted: " + e.message else e.message
  }

  function Conclude(claim: Claim, r: Outcome): Claim {
    match r
    case Allocated(c) => WithStatus(claim, Bound, Some(c), "")
    case Refused(e) => WithStatus(claim, Error, None, ErrorMessage(claim.spec.poolRef, e))
  }

  /** One undisturbed reconciliation of a claim: the Subnets and the claim afterwards. */
  function Reconcile(ctx: Context, store: Store, claim: Claim, order: seq<Cidr>, pick: Subnet): (Store, Claim) {
    if IsBound(claim) then
      (store, if claim.status.observed == claim.generation then claim
              else WithStatus(claim, Bound, claim.status.cidr, ""))
    else if claim.spec.poolRef !in ctx.pools then
      (store, if claim.status.phase == Error && claim.status.message == PoolNotFound(claim.spec) then claim
              else WithStatus(claim, Error, None, PoolNotFound(claim.spec)))
    else
      var invalid := ValidateClaim(claim.spec, ctx.pools[claim.spec.poolRef]);
      if invalid.Some? then (store, WithStatus(claim, Error, None, invalid.value))
      else if claim.spec.clusterID in store then
        var s := store[claim.spec.clusterID];
        (store, if s.poolRef != claim.spec.poolRef then WithStatus(claim, Error, None, WRONG_POOL)
                else WithStatus(claim, Bound, Some(s.cidr), ""))
      else
        var (store', r) := SerialAllocate(ctx.sha1, store, claim.spec, ctx.pools[claim.spec.poolRef], order, pick);
        (store', Conclude(claim, r))
  }

  /** What becomes of the latest version of a claim when `claim'` is decided on from the version `claim`. */
  function AfterUpdate(claim: Claim, claim': Claim, latest: Claim, lost: bool): Claim {
    if lost || claim' == claim then latest else latest.(status := claim'.status.(observed := latest.generation))
  }

  /** `store'` is a result that a reconciliation against an undisturbed API server can have, and `after` is what it
      makes of the claim: the status it decides on is written over `latest`, unless it is no news or lost. */
  ghost predicate ReconcileResult(
    ctx: Context, store: Store, claim: Claim, store': Store, latest: Claim, lost: bool, after: Claim)
  {
    exists order, pick :: Enabled(store, claim.spec, order, pick)
      && var (s, claim') := Reconcile(ctx, store, claim, order, pick);
         store' == s && after == AfterUpdate(claim, claim', latest, lost)
  }

  lemma SomeChoice(store: Store, spec: ClaimSpec) returns (order: seq<Cidr>, pick: Subnet)
    ensures Enabled(store, spec, order, pick)
  {
    var view := PoolSubnets(store, spec.poolRef);
    order := SomeOrder(CidrsOf(view));
    pick := NO_SUBNET;
    if Existing(view, spec) != {} { pick :| pick in Existing(view, spec); }
  }

  // ---------------------------------------------------------------- the status update loop

  datatype Reply = Fine | NotFound | Conflict | Failure

  /** How a status request fares, and what another client wrote just before it. */
  datatype Turnout = Turnout(reply: Reply, written: Option<Claim>)

  /** The claim that request `k` leaves behind if it was `claim` before request `i` and only others have written. */
  function Since(claim: Claim, turnouts: seq<Turnout>, i: nat, k: nat): Claim {
    if k <= i then claim
    else if k <= |turnouts| && turnouts[k - 1].written.Some? then turnouts[k - 1].written.value
    else Since(claim, turnouts, i, k - 1)
  }

  lemma {:induction false} SinceInSteps(claim: Claim, turnouts: seq<Turnout>, i: nat, j: nat, k: nat)
    requires i <= j <= k
    ensures Since(Since(claim, turnouts, i, j), turnouts, j, k) == Since(claim, turnouts, i, k)
  {
    if j < k { SinceInSteps(claim, turnouts, i, j, k - 1); }
  }

  /** The reply to request `i`. */
  function ReplyOf(turnouts: seq<Turnout>, i: nat): Reply {
    if i < |turnouts| then turnouts[i].reply else Fine
  }

  /** Requests `a` to `b`, of which the last is answered by `r`: all before it met a conflict, and it did so only if it
      was the fifth. */
  predicate PastConflicts(turnouts: seq<Turnout>, a: nat, b: nat, r: Reply) {
    && a < b <= a + 5 && r == ReplyOf(turnouts, b - 1)
    && (forall i :: a <= i < b - 1 ==> ReplyOf(turnouts, i).Conflict?)
    && (r.Conflict? ==> b == a + 5)
  }

  function NotFounds(turnouts: seq<Turnout>, a: nat, b: nat): nat {
    if b <= a then 0 else NotFounds(turnouts, a, b - 1) + if ReplyOf(turnouts, b - 1).NotFound? then 1 else 0
  }

  lemma {:induction false} NotFoundsInSteps(turnouts: seq<Turnout>, a: nat, b: nat, c: nat)
    requires a <= b <= c
    ensures NotFounds(turnouts, a, c) == NotFounds(turnouts, a, b) + NotFounds(turnouts, b, c)
  {
    if b < c { NotFoundsInSteps(turnouts, a, b, c - 1); }
  }

  lemma {:induction false} NoneNotFound(turnouts: seq<Turnout>, a: nat, b: nat)
    requires forall i :: a <= i < b ==> !ReplyOf(turnouts, i).NotFound?
    ensures NotFounds(turnouts, a, b) == 0
  {
    if a < b { NoneNotFound(turnouts, a, b - 1); }
  }

  /** Requests `a` to `b`, of which the last is answered by `r`: all before it met a conflict or found nothing, and the
      last one did so only after five conflicts in a row, or if it was the fourth that found nothing. */
  predicate Persisted(turnouts: seq<Turnout>, a: nat, b: nat, r: Reply) {
    && a < b && r == ReplyOf(turnouts, b - 1)
    && (forall i :: a <= i < b - 1 ==> ReplyOf(turnouts, i).Conflict? || ReplyOf(turnouts, i).NotFound?)
    && (r.Conflict? ==> b >= a + 5 && forall i :: b - 5 <= i < b ==> ReplyOf(turnouts, i).Conflict?)
    && (r.NotFound? ==> NotFounds(turnouts, a, b) == 4)
  }

  /** The stored claim, how the status requests fare one after the other, and the number of requests so far. */
  class ClaimServer {
    var claim: Claim
    const turnouts: seq<Turnout>
    var updates: nat

    constructor (claim: Claim, turnouts: seq<Turnout>)
      ensures this.claim == claim && this.turnouts == turnouts && updates == 0
    {
      this.claim, this.turnouts, updates := claim, turnouts, 0;
    }

    /** The disturbances are over. */
    predicate Calm()
      reads this
    {
      |turnouts| <= updates
    }

    /** A read and a write of the stored claim, as one request. */
    method Update(phase: Phase, cidr: Option<Cidr>, message: string) returns (r: Reply)
      modifies this
      ensures updates == old(updates) + 1
      ensures r == if old(Calm()) then Fine else turnouts[old(updates)].reply
      ensures var latest := Since(old(claim), turnouts, old(updates), updates);
              claim == if r.Fine? then Applied(latest, phase, cidr, message) else latest
    {
      r := Fine;
      if updates < |turnouts| {
        var turnout := turnouts[updates];
        if turnout.written.Some? { claim := turnout.written.value; }
        r := turnout.reply;
      }
      updates := updates + 1;
      if r.Fine? { claim := Applied(claim, phase, cidr, message); }
    }

    /** `retry.RetryOnConflict`. */
    method RetryOnConflict(phase: Phase, cidr: Option<Cidr>, message: string) returns (r: Reply)
      modifies this
      ensures PastConflicts(turnouts, old(updates), updates, r)
      ensures var latest := Since(old(claim), turnouts, old(updates), updates);
              claim == if r.Fine? then Applied(latest, phase, cidr, message) else latest
      ensures old(Calm()) ==> r.Fine?
    {
      r := Conflict;
      var steps := CONFLICT_STEPS;
      while steps > 0 && r.Conflict?
        invariant 0 <= steps <= CONFLICT_STEPS && updates + steps == old(updates) + CONFLICT_STEPS
        invariant var latest := Since(old(claim), turnouts, old(updates), updates);
                  claim == if r.Fine? then Applied(latest, phase, cidr, message) else latest
        invariant steps == CONFLICT_STEPS ==> r.Conflict?
        invariant steps < CONFLICT_STEPS ==> r == ReplyOf(turnouts, updates - 1)
        invariant forall i :: old(updates) <= i < updates - 1 ==> ReplyOf(turnouts, i).Conflict?
        invariant old(Calm()) ==> r.Fine? || steps == CONFLICT_STEPS
      {
        SinceInSteps(old(claim), turnouts, old(updates), updates, updates + 1);
        r := Update(phase, cidr, message);
        steps := steps - 1;
      }
    }

    /** `updateClaimStatus`: the whole new status is written over the latest version of the claim, whatever that is, or
        none of it, after at most twenty requests. A Bound status that someone else wrote in the meantime survives
        exactly if nothing is written or what is written is Bound with the same CIDR. */
    method UpdateClaimStatus(seen: Claim, phase: Phase, cidr: Option<Cidr>, message: string) returns (r: Reply)
      modifies this
      ensures old(updates) <= updates <= old(updates) + 20
      ensures !Unchanged(seen, phase, cidr, message) ==> Persisted(turnouts, old(updates), updates, r)
      ensures Unchanged(seen, phase, cidr, message) ==> updates == old(updates) && r.Fine?
      ensures var latest := Since(old(claim), turnouts, old(updates), updates);
              var written := r.Fine? && !Unchanged(seen, phase, cidr, message);
              && claim == (if written then Applied(latest, phase, cidr, message) else latest)
              && (IsBound(latest) ==>
                    (IsBound(claim) && claim.status.cidr == latest.status.cidr <==>
                     !written || (phase == Bound && cidr == latest.status.cidr)))
      ensures old(Calm()) ==> r.Fine?
    {
      if Unchanged(seen, phase, cidr, message) { return Fine; }
      r := NotFound;
      for notFoundRetry := 0 to NOT_FOUND_RETRIES + 1
        invariant old(updates) <= updates <= old(updates) + notFoundRetry * CONFLICT_STEPS
        invariant notFoundRetry <= NOT_FOUND_RETRIES
        invariant r.NotFound? && NotFounds(turnouts, old(updates), updates) == notFoundRetry
        invariant forall i :: old(updates) <= i < updates ==>
                    ReplyOf(turnouts, i).Conflict? || ReplyOf(turnouts, i).NotFound?
        invariant claim == Since(old(claim), turnouts, old(updates), updates)
        invariant old(Calm()) ==> notFoundRetry == 0
      {
        ghost var before := updates;
        r := RetryOnConflict(phase, cidr, message);
        SinceInSteps(old(claim), turnouts, old(updates), before, updates);
        NoneNotFound(turnouts, before, updates - 1);
        NotFoundsInSteps(turnouts, old(updates), before, updates);
        if r.NotFound? && notFoundRetry < NOT_FOUND_RETRIES { continue; }
        return r;
      }
    }
  }

  // ---------------------------------------------------------------- the reconciliation loop

  /** The claim keeps its status or gets a consistent one of its generation. */
  ghost predicate Consistent(latest: Claim, after: Claim) {
    after != latest ==>
      && after == latest.(status := after.status)
      && after.status.phase in {Bound, Error} && StatusOk(after.status) && after.status.observed == after.generation
  }

  method Report(server: ClaimServer, claim: Claim, phase: Phase, cidr: Option<Cidr>, message: string)
    returns (failed: bool)
    requires if cidr.Some? then phase == Bound && message == "" else phase == Error && message != ""
    modifies server
    ensures server.updates >= old(server.updates)
    ensures var latest := Since(old(server.claim), server.turnouts, old(server.updates), server.updates);
            && Consistent(latest, server.claim)
            && server.claim == AfterUpdate(claim, WithStatus(claim, phase, cidr, message), latest, failed)
    ensures old(server.Calm()) ==> !failed
  {
    var r := server.UpdateClaimStatus(claim, phase, cidr, message);
    failed := !r.Fine?;
  }

  lemma ResultByChoice(
    ctx: Context, store: Store, claim: Claim, order: seq<Cidr>, pick: Subnet, store': Store, claim': Claim,
    latest: Claim, lost: bool)
    requires Enabled(store, claim.spec, order, pick) && Reconcile(ctx, store, claim, order, pick) == (store', claim')
    ensures ReconcileResult(ctx, store, claim, store', latest, lost, AfterUpdate(claim, claim', latest, lost))
  {}

  /** Without requests left to disturb, nobody else writes. */
  lemma {:induction false} SinceQuiet(claim: Claim, turnouts: seq<Turnout>, i: nat, k: nat)
    requires |turnouts| <= i
    ensures Since(claim, turnouts, i, k) == claim
  {
    if i < k { SinceQuiet(claim, turnouts, i, k - 1); }
  }

  /** Without disturbance, the claim afterwards is that of `Reconcile`. */
  lemma Undisturbed(
    ctx: Context, store: Store, claim: Claim, store': Store, turnouts: seq<Turnout>, i: nat, k: nat, after: Claim)
    requires |turnouts| <= i
    requires ReconcileResult(ctx, store, claim, store', Since(claim, turnouts, i, k), false, after)
    ensures exists order, pick :: Enabled(store, claim.spec, order, pick)
              && (store', after) == Reconcile(ctx, store, claim, order, pick)
  {
    SinceQuiet(claim, turnouts, i, k);
  }

  /** What a reconciliation promises of its effect on the claim. */
  ghost predicate Reconciled(
    ctx: Context, store: Store, claim: Claim, quiet: bool, store': Store, latest: Claim, failed: bool, after: Claim)
  {
    && Consistent(latest, after)
    && (quiet && PairwiseDisjoint(CidrsOf(PoolSubnets(store, claim.spec.poolRef))) ==>
          ReconcileResult(ctx, store, claim, store', latest, failed, after))
  }

  /** A claim whose cluster has no Subnet of its name gets what the allocation gives it. */
  lemma ResultOfAllocation(
    ctx: Context, store: Store, claim: Claim, store': Store, latest: Claim, lost: bool, after: Claim)
    requires Reaches(ctx, claim) && claim.spec.clusterID !in store
    requires exists r :: SerialResult(ctx.sha1, store, claim.spec, ctx.pools[claim.spec.poolRef], store', r)
                         && after == AfterUpdate(claim, Conclude(claim, r), latest, lost)
    ensures ReconcileResult(ctx, store, claim, store', latest, lost, after)
  {
    var pool := ctx.pools[claim.spec.poolRef];
    var r :| SerialResult(ctx.sha1, store, claim.spec, pool, store', r)
             && after == AfterUpdate(claim, Conclude(claim, r), latest, lost);
    var order, pick :| Enabled(store, claim.spec, order, pick)
                       && (store', r) == SerialAllocate(ctx.sha1, store, claim.spec, pool, order, pick);
    ResultByChoice(ctx, store, claim, order, pick, store', Conclude(claim, r), latest, lost);
  }

  /** The allocation loop of `processClaimReconciliation`. */
  method AllocateAndReport(
    api: ApiServer, server: ClaimServer, sha1: Sha1, claim: Claim, pool: Pool, items: seq<Subnet>)
    returns (failed: bool)
    modifies api, server
    ensures api.requests <= old(api.requests) + MAX_RETRIES
    ensures api.accepted <= old(api.accepted) + 1
    ensures server.updates >= old(server.updates)
    ensures var latest := Since(old(server.claim), server.turnouts, old(server.updates), server.updates);
            && Consistent(latest, server.claim)
            && (Quiet(old(api.subnets), old(api.pools), old(api.script), claim.spec, pool, items) ==>
                  exists r :: SerialResult(sha1, old(api.subnets), claim.spec, pool, api.subnets, r)
                    && server.claim == AfterUpdate(claim, Conclude(claim, r), latest, failed))
    ensures old(server.Calm()) ==> !failed
  {
    for retry := 0 to OUTER_RETRIES
      invariant retry == 0
      invariant api.requests == old(api.requests) && api.accepted == old(api.accepted)
      invariant api.subnets == old(api.subnets) && api.pools == old(api.pools) && api.script == old(api.script)
      invariant server.updates == old(server.updates)
      invariant server.claim == old(server.claim)
    {
      var outcome := AllocateCIDR(api, sha1, claim.spec, pool, items);
      if outcome.Refused? && outcome.error.ConflictError? && retry < OUTER_RETRIES - 1 {
        assert false;
      }
      match outcome {
        case Allocated(c) => failed := Report(server, claim, Bound, Some(c), "");
        case Refused(e) => failed := Report(server, claim, Error, None, ErrorMessage(claim.spec.poolRef, e));
      }
      return;
    }
  }

  predicate IsPool(pools: map<string, Pool>, name: string, pool: Pool) {
    name in pools && pools[name] == pool
  }

  /** The part of `processClaimReconciliation` that follows the lookup of the pool. */
  method ReconcileInPool(api: ApiServer, server: ClaimServer, sha1: Sha1, claim: Claim, pool: Pool)
    returns (failed: bool)
    requires !IsBound(claim)
    modifies api, server
    ensures api.requests <= old(api.requests) + MAX_RETRIES
    ensures api.accepted <= old(api.accepted) + 1
    ensures server.updates >= old(server.updates)
    ensures Reconciled(
              Context(sha1, old(api.pools)), old(api.subnets), claim,
              old(api.script) == [] && IsPool(old(api.pools), claim.spec.poolRef, pool),
              api.subnets, Since(old(server.claim), server.turnouts, old(server.updates), server.updates),
              failed, server.claim)
    ensures old(api.script) == [] && old(server.Calm()) ==> !failed
  {
    ghost var ctx, store := Context(sha1, api.pools), api.subnets;
    ghost var was, before := server.claim, server.updates;
    ghost var quiet := api.script == [] && IsPool(api.pools, claim.spec.poolRef, pool);
    ghost var order, pick := SomeChoice(store, claim.spec);
    var spec := claim.spec;
    var invalid := ValidateClaim(spec, pool);
    if invalid.Some? {
      failed := Report(server, claim, Error, None, invalid.value);
      if quiet {
        ResultByChoice(ctx, store, claim, order, pick, store, WithStatus(claim, Error, None, invalid.value),
                       Since(was, server.turnouts, before, server.updates), failed);
      }
      return;
    }
    var getFails, named := api.Get(spec.clusterID);
    if getFails { return true; }
    if named.Some? {
      if named.value.poolRef != spec.poolRef {
        failed := Report(server, claim, Error, None, WRONG_POOL);
      } else {
        failed := Report(server, claim, Bound, Some(named.value.cidr), "");
      }
      if quiet {
        ResultByChoice(ctx, store, claim, order, pick, store, Reconcile(ctx, store, claim, order, pick).1,
                       Since(was, server.turnouts, before, server.updates), failed);
      }
      return;
    }
    var ok, items := api.List(spec.poolRef);
    if !ok { return true; }
    failed := AllocateAndReport(api, server, sha1, claim, pool, items);
    if quiet && PairwiseDisjoint(CidrsOf(PoolSubnets(store, spec.poolRef))) {
      ResultOfAllocation(
        ctx, store, claim, api.subnets, Since(was, server.turnouts, before, server.updates), failed, server.claim);
    }
  }

  /** `processClaimReconciliation`, where `claim` is the version that was read. For every behaviour of the two servers:
      at most fifty create requests and at most one success, although the loop is written for sixty-five
      rounds; and the latest version of the claim keeps its status or gets a consistent one. Against an
      undisturbed API server the status is that of `Reconcile`, written over the latest version of the claim. */
  method ProcessClaim(api: ApiServer, server: ClaimServer, sha1: Sha1, claim: Claim) returns (failed: bool)
    modifies api, server
    ensures api.requests <= old(api.requests) + MAX_RETRIES
    ensures api.accepted <= old(api.accepted) + 1
    ensures server.updates >= old(server.updates)
    ensures Reconciled(
              Context(sha1, old(api.pools)), old(api.subnets), claim, old(api.script) == [], api.subnets,
              Since(old(server.claim), server.turnouts, old(server.updates), server.updates),
              failed, server.claim)
    ensures old(api.script) == [] && old(server.Calm()) ==> !failed
  {
    ghost var ctx, store := Context(sha1, api.pools), api.subnets;
    ghost var was, before := server.claim, server.updates;
    ghost var order, pick := SomeChoice(store, claim.spec);
    if IsBound(claim) {
      if claim.status.observed == claim.generation {
        ResultByChoice(ctx, store, claim, order, pick, store, claim, was, false);
        return false;
      }
      failed := Report(server, claim, Bound, claim.status.cidr, "");
      ResultByChoice(ctx, store, claim, order, pick, store, WithStatus(claim, Bound, claim.status.cidr, ""),
                     Since(was, server.turnouts, before, server.updates), failed);
      return;
    }
    var spec := claim.spec;
    var getPoolFails, read := api.GetPool(spec.poolRef);
    if getPoolFails { return true; }
    if read.None? {
      if claim.status.phase == Error && claim.status.message == PoolNotFound(spec) {
        if old(api.script) == [] { ResultByChoice(ctx, store, claim, order, pick, store, claim, was, false); }
        return false;
      }
      failed := Report(server, claim, Error, None, PoolNotFound(spec));
      if old(api.script) == [] {
        ResultByChoice(ctx, store, claim, order, pick, store, WithStatus(claim, Error, None, PoolNotFound(spec)),
                       Since(was, server.turnouts, before, server.updates), failed);
      }
      return;
    }
    failed := ReconcileInPool(api, server, sha1, claim, read.value);
  }
}
