/** Serial runs: one reconciliation at a time, each working from the current Subnets
    (`MaxConcurrentReconciles` is one), with users editing pools and claims and deleting objects in between. */
module SerialRuns {
  import opened Powers
  import opened Cidrs
  import opened Bitmap
  import opened MarkOrder
  import opened Allocator
  import opened Names
  import opened Protocol
  import opened AllocationLoop
  import opened Claims

  datatype World = World(pools: map<string, Pool>, store: Store, claims: map<string, Claim>)

  /** How far a reconciliation gets: to its end; not to the allocation; or past the allocation, with the status
      update lost. */
  datatype Extent = Complete | Aborted | StatusLost

  datatype Action =
    | SetPool(name: string, pool: Pool)
    | DeletePool(name: string)
    | AddClaim(name: string, spec: ClaimSpec)
    | EditClaim(name: string, spec: ClaimSpec)
    | DeleteClaim(name: string)
    | DeleteSubnet(name: string)
    | ReconcileClaim(name: string, order: seq<Cidr>, pick: Subnet, extent: Extent)

  function Edited(w: World, name: string, spec: ClaimSpec): World
    requires name in w.claims
  {
    var claim := w.claims[name];
    w.(claims := w.claims[name := claim.(spec := spec, generation := claim.generation + 1)])
  }

  function Act(sha1: Sha1, w: World, a: Action): World {
    match a
    case SetPool(name, pool) => w.(pools := w.pools[name := pool])
    case DeletePool(name) => w.(pools := w.pools - {name})
    case AddClaim(name, spec) =>
      if name in w.claims then w else w.(claims := w.claims[name := Claim(spec, 1, NEW_STATUS)])
    case EditClaim(name, spec) =>
      if name !in w.claims then w else Edited(w, name, spec)
    case DeleteClaim(name) => w.(claims := w.claims - {name})
    case DeleteSubnet(name) => w.(store := w.store - {name})
    case ReconcileClaim(name, order, pick, extent) =>
      if name !in w.claims || !Enabled(w.store, w.claims[name].spec, order, pick) || extent.Aborted? then w
      else
        var (store, claim) := Reconcile(Context(sha1, w.pools), w.store, w.claims[name], order, pick);
        World(w.pools, store, if extent.StatusLost? then w.claims else w.claims[name := claim])
  }

  function Acts(sha1: Sha1, w: World, actions: seq<Action>): World {
    if actions == [] then w
    else Act(sha1, Acts(sha1, w, actions[..|actions| - 1]), actions[|actions| - 1])
  }

  const START: World := World(map[], map[], map[])

  // ---------------------------------------------------------------- the Subnets of every pool

  /** The Subnet lies in its pool and is filed under its encoded name. */
  predicate Placed(sha1: Sha1, pools: map<string, Pool>, name: string, s: Subnet) {
    && s.poolRef in pools && Within(s.cidr, pools[s.poolRef].cidr)
    && name == EncodeAllocationName(sha1, s.poolRef, s.cidr)
  }

  /** Two Subnets of one pool have disjoint ranges and belong to different clusters. */
  predicate Apart(s: Subnet, t: Subnet) {
    s.poolRef == t.poolRef ==> Disjoint(s.cidr, t.cidr) && s.clusterID != t.clusterID
  }

  ghost predicate StoreOk(sha1: Sha1, pools: map<string, Pool>, store: Store) {
    && (forall n :: n in store ==> Placed(sha1, pools, n, store[n]))
    && (forall n, m :: n in store && m in store && n != m ==> Apart(store[n], store[m]))
  }

  /** A pool that is deleted has no Subnets, and one that gets another CIDR keeps all its Subnets inside. */
  predicate KeepsPool(w: World, a: Action) {
    && (a.DeletePool? ==> forall n :: n in w.store ==> w.store[n].poolRef != a.name)
    && (a.SetPool? && a.name in w.pools ==>
          forall n :: n in w.store && w.store[n].poolRef == a.name ==> Within(w.store[n].cidr, a.pool.cidr))
  }

  ghost predicate KeepsPools(sha1: Sha1, w: World, actions: seq<Action>) {
    forall i :: 0 <= i < |actions| ==> KeepsPool(Acts(sha1, w, actions[..i]), actions[i])
  }

  lemma ViewDisjoint(sha1: Sha1, pools: map<string, Pool>, store: Store, pool: string)
    requires StoreOk(sha1, pools, store)
    ensures PairwiseDisjoint(CidrsOf(PoolSubnets(store, pool)))
    ensures pool in pools ==> forall c :: c in CidrsOf(PoolSubnets(store, pool)) ==> Within(c, pools[pool].cidr)
  {
    var view := PoolSubnets(store, pool);
    forall c, d | c in CidrsOf(view) && d in CidrsOf(view) && c != d ensures Disjoint(c, d) {
      var s :| s in view && s.cidr == c;
      var t :| t in view && t.cidr == d;
      var n :| n in store && store[n] == s;
      var m :| m in store && store[m] == t;
      assert Apart(store[n], store[m]);
    }
    if pool in pools {
      forall c | c in CidrsOf(view) ensures Within(c, pools[pool].cidr) {
        var s :| s in view && s.cidr == c;
        var n :| n in store && store[n] == s;
        assert Placed(sha1, pools, n, s);
      }
    }
  }

  /** With the current list of a pool whose Subnets are disjoint and inside it, every candidate, dynamic or
      requested, lies in the pool and is disjoint from all of them. */
  lemma CandidateDisjoint(claim: ClaimSpec, pool: Pool, order: seq<Cidr>, view: set<Subnet>)
    requires PairwiseDisjoint(CidrsOf(view)) && Lists(order, CidrsOf(view))
    requires forall c :: c in CidrsOf(view) ==> Within(c, pool.cidr)
    ensures var r := SelectCandidate(claim, pool, order, view);
            r.Allocated? ==> Within(r.cidr, pool.cidr) && forall s :: s in view ==> Disjoint(r.cidr, s.cidr)
  {
    var r := SelectCandidate(claim, pool, order, view);
    CandidateShape(claim, pool, order, view);
    if r.Allocated? {
      if claim.requested.Some? {
        RequestedExact(claim.requested.value, pool.cidr, view);
      } else {
        DisjointIsTiled(Mask(pool.cidr), CidrsOf(view));
        FoundIsDisjoint(pool.cidr, BlockSizeOf(claim, pool), CidrsOf(view), order);
        assert forall s :: s in view ==> s.cidr in CidrsOf(view);
      }
    }
  }

  lemma AllocateKeepsStore(ctx: Context, store: Store, claim: ClaimSpec, order: seq<Cidr>, pick: Subnet)
    requires StoreOk(ctx.sha1, ctx.pools, store) && Enabled(store, claim, order, pick) && claim.poolRef in ctx.pools
    ensures var store' := SerialAllocate(ctx.sha1, store, claim, ctx.pools[claim.poolRef], order, pick).0;
            StoreOk(ctx.sha1, ctx.pools, store')
  {
    var view, pool := PoolSubnets(store, claim.poolRef), ctx.pools[claim.poolRef];
    ViewDisjoint(ctx.sha1, ctx.pools, store, claim.poolRef);
    CandidateDisjoint(claim, pool, order, view);
    var r := SelectCandidate(claim, pool, order, view);
    if Existing(view, claim) == {} && r.Allocated? && NameFor(ctx.sha1, claim, r.cidr) !in store {
      var s := SubnetFor(claim, r.cidr);
      forall n | n in store ensures Apart(store[n], s) {
        assert store[n].poolRef == claim.poolRef ==> store[n] in view && store[n] !in Existing(view, claim);
      }
      InsertKeepsStore(ctx.sha1, ctx.pools, store, NameFor(ctx.sha1, claim, r.cidr), s);
    }
  }

  lemma InsertKeepsStore(sha1: Sha1, pools: map<string, Pool>, store: Store, name: string, s: Subnet)
    requires StoreOk(sha1, pools, store) && Placed(sha1, pools, name, s) && name !in store
    requires forall n :: n in store ==> Apart(store[n], s)
    ensures StoreOk(sha1, pools, store[name := s])
  {
    var store' := store[name := s];
    forall n, m | n in store' && m in store' && n != m ensures Apart(store'[n], store'[m]) {
      if n != name && m != name { assert Apart(store[n], store[m]); }
    }
  }

  lemma ActKeepsStore(sha1: Sha1, w: World, a: Action)
    requires StoreOk(sha1, w.pools, w.store) && KeepsPool(w, a)
    ensures var w' := Act(sha1, w, a); StoreOk(sha1, w'.pools, w'.store)
  {
    match a
    case SetPool(name, pool) =>
      forall n | n in w.store ensures Placed(sha1, w.pools[name := pool], n, w.store[n]) {
        assert Placed(sha1, w.pools, n, w.store[n]);
      }
    case DeletePool(name) =>
      forall n | n in w.store ensures Placed(sha1, w.pools - {name}, n, w.store[n]) {
        assert Placed(sha1, w.pools, n, w.store[n]);
      }
    case ReconcileClaim(name, order, pick, extent) =>
      if name in w.claims && Enabled(w.store, w.claims[name].spec, order, pick) {
        ReconcileKeepsStore(Context(sha1, w.pools), w.store, w.claims[name], order, pick);
      }
    case _ =>
  }

  lemma ReconcileKeepsStore(ctx: Context, store: Store, claim: Claim, order: seq<Cidr>, pick: Subnet)
    requires StoreOk(ctx.sha1, ctx.pools, store) && Enabled(store, claim.spec, order, pick)
    ensures StoreOk(ctx.sha1, ctx.pools, Reconcile(ctx, store, claim, order, pick).0)
  {
    if claim.spec.poolRef in ctx.pools { AllocateKeepsStore(ctx, store, claim.spec, order, pick); }
  }

  /** Serial runs with mixed sizes: any sequence of dynamic and requested claims, edits, failures and deletions
      keeps the Subnets of every pool inside it, pairwise disjoint, and at most one per cluster. */
  lemma {:induction false} SerialRunsSafe(sha1: Sha1, w: World, actions: seq<Action>)
    requires StoreOk(sha1, w.pools, w.store) && KeepsPools(sha1, w, actions)
    ensures var w' := Acts(sha1, w, actions); StoreOk(sha1, w'.pools, w'.store)
  {
    if actions != [] {
      var n := |actions| - 1;
      assert KeepsPools(sha1, w, actions[..n]) by {
        forall i | 0 <= i < n ensures KeepsPool(Acts(sha1, w, actions[..n][..i]), actions[..n][i]) {
          assert actions[..n][..i] == actions[..i];
        }
      }
      SerialRunsSafe(sha1, w, actions[..n]);
      ActKeepsStore(sha1, Acts(sha1, w, actions[..n]), actions[n]);
    }
  }

  // ---------------------------------------------------------------- claim status

  predicate ClaimOk(c: Claim) {
    StatusOk(c.status) && c.status.observed <= c.generation
  }

  ghost predicate StatusesOk(w: World) {
    forall n :: n in w.claims ==> ClaimOk(w.claims[n])
  }

  lemma ReconcileStatus(ctx: Context, store: Store, claim: Claim, order: seq<Cidr>, pick: Subnet)
    requires ClaimOk(claim)
    ensures var claim' := Reconcile(ctx, store, claim, order, pick).1;
            && ClaimOk(claim')
            && claim'.spec == claim.spec && claim'.generation == claim.generation
            && (claim.status.phase == Bound ==> claim'.status == claim.status)
            && (claim'.status != claim.status ==> claim'.status.observed == claim.generation)
  {
    if Reaches(ctx, claim) && claim.spec.clusterID !in store {
      var pool := ctx.pools[claim.spec.poolRef];
      RefusalHasMessage(ctx, store, claim.spec, pool, order, pick);
      ConcludeStatus(claim, SerialAllocate(ctx.sha1, store, claim.spec, pool, order, pick).1);
    }
  }

  lemma RefusalHasMessage(ctx: Context, store: Store, spec: ClaimSpec, pool: Pool, order: seq<Cidr>, pick: Subnet)
    ensures var r := SerialAllocate(ctx.sha1, store, spec, pool, order, pick).1;
            r.Refused? ==> ErrorMessage(spec.poolRef, r.error) != ""
  {
    CandidateShape(spec, pool, order, PoolSubnets(store, spec.poolRef));
  }

  lemma ConcludeStatus(claim: Claim, r: Outcome)
    requires ClaimOk(claim) && !IsBound(claim) && (r.Refused? ==> ErrorMessage(claim.spec.poolRef, r.error) != "")
    ensures var claim' := Conclude(claim, r);
            && ClaimOk(claim') && claim' == claim.(status := claim'.status)
            && (claim'.status != claim.status ==> claim'.status.observed == claim.generation)
  {}

  lemma ActKeepsStatuses(sha1: Sha1, w: World, a: Action)
    requires StatusesOk(w)
    ensures StatusesOk(Act(sha1, w, a))
    ensures forall n :: n in w.claims && w.claims[n].status.phase == Bound && a != DeleteClaim(n) ==>
              n in Act(sha1, w, a).claims && Act(sha1, w, a).claims[n].status == w.claims[n].status
  {
    if a.ReconcileClaim? && a.name in w.claims {
      ReconcileStatus(Context(sha1, w.pools), w.store, w.claims[a.name], a.order, a.pick);
    }
  }

  /** Claim state machine. In every run each claim is new, Bound with a CIDR and no message and Ready, or in Error
      with a message and no CIDR and not Ready; and the status of a Bound claim, its observed generation
      included, never changes again while the claim exists, whatever is edited or reconciled. */
  lemma {:induction false} ClaimStateMachine(sha1: Sha1, w: World, actions: seq<Action>, n: string)
    requires StatusesOk(w)
    ensures StatusesOk(Acts(sha1, w, actions))
    ensures n in w.claims && w.claims[n].status.phase == Bound && DeleteClaim(n) !in actions ==>
              n in Acts(sha1, w, actions).claims && Acts(sha1, w, actions).claims[n].status == w.claims[n].status
  {
    if actions != [] {
      var k := |actions| - 1;
      ClaimStateMachine(sha1, w, actions[..k], n);
      ActKeepsStatuses(sha1, Acts(sha1, w, actions[..k]), actions[k]);
    }
  }

  // ---------------------------------------------------------------- progress

  /** What a claim can be given without overlapping the current Subnets of its pool: its own Subnet again, a block of
      its size that meets none of them, or the requested CIDR. */
  ghost predicate CanBeServed(pool: Pool, spec: ClaimSpec, view: set<Subnet>) {
    if Existing(view, spec) != {} then true
    else if spec.requested.Some? then
      Within(spec.requested.value, pool.cidr) && forall s :: s in view ==> Disjoint(spec.requested.value, s.cidr)
    else
      var size := BlockSizeOf(spec, pool);
      Usable(pool, size) && exists i: nat :: i < TotalBlocks(pool.cidr, size) && ClearAt(pool, size, view, i)
  }

  ghost predicate ClearAt(pool: Pool, size: nat, view: set<Subnet>, i: nat)
    requires Usable(pool, size) && i < TotalBlocks(pool.cidr, size)
  {
    forall s :: s in view ==> Disjoint(BlockAt(Mask(pool.cidr), size, i), s.cidr)
  }

  lemma ClearIsClear(pool: Pool, size: nat, view: set<Subnet>, i: nat)
    requires Usable(pool, size) && i < TotalBlocks(pool.cidr, size)
    requires forall c :: c in CidrsOf(view) ==> Within(c, pool.cidr)
    ensures ClearAt(pool, size, view, i) <==> BlockClear(Mask(pool.cidr), size, CidrsOf(view), i)
  {
    forall s | s in view ensures Starts(Mask(pool.cidr), s.cidr) {
      assert s.cidr in CidrsOf(view);
    }
    if ClearAt(pool, size, view, i) {
      forall u | u in CidrsOf(view) ensures Disjoint(BlockAt(Mask(pool.cidr), size, i), u) {
        var s :| s in view && s.cidr == u;
      }
    }
  }

  lemma CandidateIffServable(pool: Pool, spec: ClaimSpec, view: set<Subnet>, order: seq<Cidr>)
    requires PairwiseDisjoint(CidrsOf(view)) && Lists(order, CidrsOf(view)) && Existing(view, spec) == {}
    requires forall c :: c in CidrsOf(view) ==> Within(c, pool.cidr)
    ensures SelectCandidate(spec, pool, order, view).Allocated? <==> CanBeServed(pool, spec, view)
  {
    if spec.requested.Some? {
      RequestedExact(spec.requested.value, pool.cidr, view);
    } else {
      var size := BlockSizeOf(spec, pool);
      CandidateShape(spec, pool, order, view);
      if Usable(pool, size) {
        DisjointIsTiled(Mask(pool.cidr), CidrsOf(view));
        FirstFit(pool.cidr, size, CidrsOf(view), order);
        forall i: nat | i < TotalBlocks(pool.cidr, size)
          ensures ClearAt(pool, size, view, i) <==> BlockClear(Mask(pool.cidr), size, CidrsOf(view), i)
        {
          ClearIsClear(pool, size, view, i);
        }
      }
    }
  }

  /** Progress: one undisturbed reconciliation of a valid claim binds it if and only if it can be served. */
  lemma BoundIffServable(ctx: Context, store: Store, claim: Claim, order: seq<Cidr>, pick: Subnet)
    requires StoreOk(ctx.sha1, ctx.pools, store) && NamesDistinct(ctx.sha1, ctx.pools)
    requires Reaches(ctx, claim) && Enabled(store, claim.spec, order, pick) && claim.spec.clusterID !in store
    ensures IsBound(Reconcile(ctx, store, claim, order, pick).1) <==>
            CanBeServed(ctx.pools[claim.spec.poolRef], claim.spec, PoolSubnets(store, claim.spec.poolRef))
  {
    var spec, view := claim.spec, PoolSubnets(store, claim.spec.poolRef);
    if Existing(view, spec) == {} {
      ViewDisjoint(ctx.sha1, ctx.pools, store, spec.poolRef);
      CandidateIffServable(ctx.pools[spec.poolRef], spec, view, order);
      NameIsFree(ctx, store, spec, order);
    }
  }

  // ---------------------------------------------------------------- the Subnet of a claim

  /** No Subnet can ever be named like the cluster ID. */
  ghost predicate NotEncoded(sha1: Sha1, id: string) {
    forall p, c: Cidr :: c.V4? ==> id != EncodeAllocationName(sha1, p, c)
  }

  /** The Subnet belongs to the claim. */
  predicate Owns(spec: ClaimSpec, cidr: Cidr, s: Subnet) {
    s == Subnet(spec.poolRef, cidr, spec.clusterID)
  }

  ghost predicate HeldBy(store: Store, spec: ClaimSpec, cidr: Cidr) {
    exists n :: n in store && Owns(spec, cidr, store[n])
  }

  ghost predicate Backed(store: Store, claim: Claim) {
    IsBound(claim) ==> HeldBy(store, claim.spec, claim.status.cidr.value)
  }

  /** When names are distinct, that of a fresh candidate is free. */
  lemma NameIsFree(ctx: Context, store: Store, claim: ClaimSpec, order: seq<Cidr>)
    requires StoreOk(ctx.sha1, ctx.pools, store) && NamesDistinct(ctx.sha1, ctx.pools) && claim.poolRef in ctx.pools
    requires Lists(order, CidrsOf(PoolSubnets(store, claim.poolRef)))
    ensures var r := SelectCandidate(claim, ctx.pools[claim.poolRef], order, PoolSubnets(store, claim.poolRef));
            r.Allocated? ==> NameFor(ctx.sha1, claim, r.cidr) !in store
  {
    var view, pool := PoolSubnets(store, claim.poolRef), ctx.pools[claim.poolRef];
    var r := SelectCandidate(claim, pool, order, view);
    if r.Allocated? && NameFor(ctx.sha1, claim, r.cidr) in store {
      var name := NameFor(ctx.sha1, claim, r.cidr);
      var s := store[name];
      ViewDisjoint(ctx.sha1, ctx.pools, store, claim.poolRef);
      CandidateDisjoint(claim, pool, order, view);
      assert Placed(ctx.sha1, ctx.pools, name, s);
      CandidateShape(claim, pool, order, view);
      assert Clash(ctx.sha1, claim.poolRef, r.cidr, s.poolRef, s.cidr);
    }
  }

  /** A claim that becomes Bound owns the Subnet whose CIDR it reports exactly when no Subnet of another cluster
      is named like its cluster ID. */
  lemma LookupExact(ctx: Context, store: Store, claim: Claim, order: seq<Cidr>, pick: Subnet)
    requires StoreOk(ctx.sha1, ctx.pools, store) && NamesDistinct(ctx.sha1, ctx.pools)
    requires Reaches(ctx, claim) && Enabled(store, claim.spec, order, pick)
    ensures var (store', claim') := Reconcile(ctx, store, claim, order, pick);
            var id := claim.spec.clusterID;
            IsBound(claim') ==> (Backed(store', claim') <==> !(id in store && store[id].clusterID != id))
  {
    if claim.spec.clusterID in store {
      if store[claim.spec.clusterID].poolRef == claim.spec.poolRef { NamedOwner(ctx, store, claim.spec); }
    } else {
      FreshIsBacked(ctx, store, claim, order, pick);
    }
  }

  lemma NamedOwner(ctx: Context, store: Store, spec: ClaimSpec)
    requires StoreOk(ctx.sha1, ctx.pools, store) && spec.clusterID in store
    requires store[spec.clusterID].poolRef == spec.poolRef
    ensures var s := store[spec.clusterID];
            HeldBy(store, spec, s.cidr) <==> s.clusterID == spec.clusterID
  {
    var s := store[spec.clusterID];
    assert s.clusterID == spec.clusterID ==> Owns(spec, s.cidr, s);
    assert Placed(ctx.sha1, ctx.pools, spec.clusterID, s);
    forall n | n in store && Owns(spec, s.cidr, store[n]) ensures n == spec.clusterID {
      assert Placed(ctx.sha1, ctx.pools, n, store[n]);
    }
  }

  lemma FreshIsBacked(ctx: Context, store: Store, claim: Claim, order: seq<Cidr>, pick: Subnet)
    requires StoreOk(ctx.sha1, ctx.pools, store) && NamesDistinct(ctx.sha1, ctx.pools)
    requires Enabled(store, claim.spec, order, pick) && !IsBound(claim) && claim.spec.clusterID !in store
    ensures var (store', claim') := Reconcile(ctx, store, claim, order, pick); Backed(store', claim')
  {
    var (store', claim') := Reconcile(ctx, store, claim, order, pick);
    if Reaches(ctx, claim) {
      var spec, view := claim.spec, PoolSubnets(store, claim.spec.poolRef);
      if Existing(view, spec) != {} {
        var n :| n in store && store[n] == pick;
        assert Owns(spec, pick.cidr, store[n]);
      } else {
        NameIsFree(ctx, store, spec, order);
        var r := SelectCandidate(spec, ctx.pools[spec.poolRef], order, view);
        if r.Allocated? {
          var name := NameFor(ctx.sha1, spec, r.cidr);
          assert name in store' && Owns(spec, r.cidr, store'[name]);
        }
      }
    }
  }

  // ---------------------------------------------------------------- what a claim was bound with

  /** For every Bound claim the spec it was bound with: the one it has in the step that binds it. */
  function Record(w: World, w': World, bound: map<string, ClaimSpec>): map<string, ClaimSpec> {
    map n | n in w'.claims && IsBound(w'.claims[n]) ::
      if n in bound && n in w.claims && IsBound(w.claims[n]) then bound[n] else w'.claims[n].spec
  }

  function Bindings(sha1: Sha1, actions: seq<Action>): map<string, ClaimSpec> {
    if actions == [] then map[]
    else
      var init := actions[..|actions| - 1];
      Record(Acts(sha1, START, init), Acts(sha1, START, actions), Bindings(sha1, init))
  }

  /** Every Bound claim has the Subnet that it was bound to. */
  ghost predicate AllHeld(w: World, bound: map<string, ClaimSpec>) {
    forall n :: n in w.claims && IsBound(w.claims[n]) ==>
      n in bound && HeldBy(w.store, bound[n], w.claims[n].status.cidr.value)
  }

  /** Actions that delete no Subnet; names stay distinct, and cluster IDs are not encoded names. */
  ghost predicate Settled(sha1: Sha1, w: World, a: Action) {
    && KeepsPool(w, a) && !a.DeleteSubnet?
    && (a.SetPool? ==> NamesDistinct(sha1, w.pools[a.name := a.pool]))
    && (a.AddClaim? || a.EditClaim? ==> NotEncoded(sha1, a.spec.clusterID))
  }

  ghost predicate AllSettled(sha1: Sha1, w: World, actions: seq<Action>) {
    forall i :: 0 <= i < |actions| ==> Settled(sha1, Acts(sha1, w, actions[..i]), actions[i])
  }

  ghost predicate SettledInv(sha1: Sha1, w: World) {
    StoreOk(sha1, w.pools, w.store) && StatusesOk(w) && NamesDistinct(sha1, w.pools) && NoneEncoded(sha1, w)
  }

  lemma AllocateGrows(sha1: Sha1, store: Store, spec: ClaimSpec, pool: Pool, order: seq<Cidr>, pick: Subnet)
    ensures Includes(SerialAllocate(sha1, store, spec, pool, order, pick).0, store)
  {}

  lemma ReconcileGrows(ctx: Context, store: Store, claim: Claim, order: seq<Cidr>, pick: Subnet)
    ensures Includes(Reconcile(ctx, store, claim, order, pick).0, store)
  {
    if claim.spec.poolRef in ctx.pools {
      AllocateGrows(ctx.sha1, store, claim.spec, ctx.pools[claim.spec.poolRef], order, pick);
    }
  }

  lemma HeldGrows(store: Store, store': Store, spec: ClaimSpec, cidr: Cidr)
    requires HeldBy(store, spec, cidr) && Includes(store', store)
    ensures HeldBy(store', spec, cidr)
  {
    var n :| n in store && Owns(spec, cidr, store[n]);
    assert n in store' && Owns(spec, cidr, store'[n]);
  }

  lemma IdNotInStore(sha1: Sha1, pools: map<string, Pool>, store: Store, id: string)
    requires StoreOk(sha1, pools, store) && NotEncoded(sha1, id)
    ensures id !in store
  {
    forall n | n in store ensures n != id {
      assert Placed(sha1, pools, n, store[n]);
    }
  }

  /** Nothing but the status of claims changes, and nothing is lost: Bound claims stay as they are, and a claim that
      becomes Bound is backed. */
  ghost predicate Carries(w: World, w': World) {
    && Includes(w'.store, w.store)
    && forall n :: n in w'.claims && IsBound(w'.claims[n]) ==>
         if n in w.claims && IsBound(w.claims[n]) then w'.claims[n].status == w.claims[n].status
         else Backed(w'.store, w'.claims[n])
  }

  lemma CarriesHeld(w: World, w': World, bound: map<string, ClaimSpec>)
    requires Carries(w, w') && AllHeld(w, bound)
    ensures AllHeld(w', Record(w, w', bound))
  {
    var bound' := Record(w, w', bound);
    forall n | n in w'.claims && IsBound(w'.claims[n])
      ensures n in bound' && HeldBy(w'.store, bound'[n], w'.claims[n].status.cidr.value)
    {
      if n in w.claims && IsBound(w.claims[n]) {
        HeldGrows(w.store, w'.store, bound[n], w.claims[n].status.cidr.value);
      } else {
        assert Backed(w'.store, w'.claims[n]);
      }
    }
  }

  lemma ReconcileCarries(ctx: Context, w: World, name: string, order: seq<Cidr>, pick: Subnet)
    requires SettledInv(ctx.sha1, w) && ctx.pools == w.pools && name in w.claims
    requires Enabled(w.store, w.claims[name].spec, order, pick)
    ensures var (store, claim) := Reconcile(ctx, w.store, w.claims[name], order, pick);
            && Includes(store, w.store) && claim.spec == w.claims[name].spec
            && if IsBound(w.claims[name]) then claim.status == w.claims[name].status else Backed(store, claim)
  {
    var claim := w.claims[name];
    ReconcileGrows(ctx, w.store, claim, order, pick);
    IdNotInStore(ctx.sha1, w.pools, w.store, claim.spec.clusterID);
    ReconcileStatus(ctx, w.store, claim, order, pick);
    if !IsBound(claim) { FreshIsBacked(ctx, w.store, claim, order, pick); }
  }

  lemma OneStatusCarries(w: World, store: Store, name: string, claim: Claim)
    requires Includes(store, w.store) && name in w.claims
    requires if IsBound(w.claims[name]) then claim.status == w.claims[name].status else Backed(store, claim)
    ensures Carries(w, World(w.pools, store, w.claims)) && Carries(w, World(w.pools, store, w.claims[name := claim]))
  {}

  lemma ActCarries(sha1: Sha1, w: World, a: Action)
    requires SettledInv(sha1, w) && Settled(sha1, w, a)
    ensures Carries(w, Act(sha1, w, a))
  {
    if !a.ReconcileClaim? {
      EditCarries(sha1, w, a);
    } else if a.name in w.claims && Enabled(w.store, w.claims[a.name].spec, a.order, a.pick) {
      ReconcileCarries(Context(sha1, w.pools), w, a.name, a.order, a.pick);
      TurnCarries(sha1, w, a);
    }
  }

  lemma TurnCarries(sha1: Sha1, w: World, a: Action)
    requires a.ReconcileClaim? && a.name in w.claims && Enabled(w.store, w.claims[a.name].spec, a.order, a.pick)
    requires var (store, claim) := Reconcile(Context(sha1, w.pools), w.store, w.claims[a.name], a.order, a.pick);
             && Includes(store, w.store)
             && if IsBound(w.claims[a.name]) then claim.status == w.claims[a.name].status else Backed(store, claim)
    ensures Carries(w, Act(sha1, w, a))
  {
    var (store, claim) := Reconcile(Context(sha1, w.pools), w.store, w.claims[a.name], a.order, a.pick);
    OneStatusCarries(w, store, a.name, claim);
  }

  lemma EditCarries(sha1: Sha1, w: World, a: Action)
    requires !a.ReconcileClaim? && !a.DeleteSubnet?
    ensures Carries(w, Act(sha1, w, a))
  {}

  lemma FewerNamesDistinct(sha1: Sha1, pools: map<string, Pool>, name: string)
    requires NamesDistinct(sha1, pools)
    ensures NamesDistinct(sha1, pools - {name})
  {}

  lemma ActKeepsNames(sha1: Sha1, w: World, a: Action)
    requires NamesDistinct(sha1, w.pools) && (a.SetPool? ==> NamesDistinct(sha1, w.pools[a.name := a.pool]))
    ensures NamesDistinct(sha1, Act(sha1, w, a).pools)
  {
    if a.DeletePool? { FewerNamesDistinct(sha1, w.pools, a.name); }
  }

  /** Every claim has a cluster ID that is not an encoded name. */
  ghost predicate NoneEncoded(sha1: Sha1, w: World) {
    forall n :: n in w.claims ==> NotEncoded(sha1, w.claims[n].spec.clusterID)
  }

  lemma ActKeepsSpecs(sha1: Sha1, w: World, a: Action)
    requires NoneEncoded(sha1, w) && StatusesOk(w)
    requires a.AddClaim? || a.EditClaim? ==> NotEncoded(sha1, a.spec.clusterID)
    ensures NoneEncoded(sha1, Act(sha1, w, a))
  {
    if a.ReconcileClaim? && a.name in w.claims {
      ReconcileStatus(Context(sha1, w.pools), w.store, w.claims[a.name], a.order, a.pick);
    }
  }

  lemma ActKeepsSettled(sha1: Sha1, w: World, a: Action)
    requires SettledInv(sha1, w) && Settled(sha1, w, a)
    ensures SettledInv(sha1, Act(sha1, w, a))
  {
    ActKeepsStore(sha1, w, a);
    ActKeepsStatuses(sha1, w, a);
    ActKeepsNames(sha1, w, a);
    ActKeepsSpecs(sha1, w, a);
  }

  lemma AllSettledPrefix(sha1: Sha1, w: World, actions: seq<Action>, n: nat)
    requires AllSettled(sha1, w, actions) && n <= |actions|
    ensures AllSettled(sha1, w, actions[..n])
  {
    forall i | 0 <= i < n ensures Settled(sha1, Acts(sha1, w, actions[..n][..i]), actions[..n][i]) {
      assert actions[..n][..i] == actions[..i];
    }
  }

  /** In every run that deletes no Subnet, whatever is edited, each Bound claim has the Subnet that it was bound to. */
  lemma {:induction false} BindingsHeld(sha1: Sha1, actions: seq<Action>)
    requires AllSettled(sha1, START, actions)
    ensures SettledInv(sha1, Acts(sha1, START, actions))
    ensures AllHeld(Acts(sha1, START, actions), Bindings(sha1, actions))
  {
    if actions != [] {
      var n := |actions| - 1;
      AllSettledPrefix(sha1, START, actions, n);
      BindingsHeld(sha1, actions[..n]);
      var w := Acts(sha1, START, actions[..n]);
      ActKeepsSettled(sha1, w, actions[n]);
      ActCarries(sha1, w, actions[n]);
      CarriesHeld(w, Act(sha1, w, actions[n]), Bindings(sha1, actions[..n]));
    }
  }

  // ---------------------------------------------------------------- idempotency

  predicate SameHolder(s: ClaimSpec, t: ClaimSpec) {
    s.poolRef == t.poolRef && s.clusterID == t.clusterID
  }

  lemma HeldApart(sha1: Sha1, pools: map<string, Pool>, store: Store, s: ClaimSpec, c: Cidr, t: ClaimSpec, d: Cidr)
    requires StoreOk(sha1, pools, store) && HeldBy(store, s, c) && HeldBy(store, t, d) && s.poolRef == t.poolRef
    ensures if s.clusterID == t.clusterID then c == d else c != d && Disjoint(c, d)
    ensures exists k :: k in store && Owns(s, c, store[k]) && forall j :: j in store && j != k ==> !Owns(s, c, store[j])
  {
    var k :| k in store && Owns(s, c, store[k]);
    var l :| l in store && Owns(t, d, store[l]);
    assert Placed(sha1, pools, k, store[k]) && !Disjoint(c, c);
    if k != l { assert Apart(store[k], store[l]); }
    forall j | j in store && j != k ensures !Owns(s, c, store[j]) {
      assert Apart(store[k], store[j]);
    }
  }

  /** Idempotency. In a run that deletes no Subnet, with arbitrary edits, two Bound claims that were bound in one pool
      carry the same CIDR if and only if they were bound for the same cluster, and disjoint CIDRs otherwise; each CIDR
      is that of exactly one Subnet. */
  lemma Idempotent(sha1: Sha1, actions: seq<Action>, n: string, m: string)
    requires AllSettled(sha1, START, actions)
    ensures var w, bound := Acts(sha1, START, actions), Bindings(sha1, actions);
            n in w.claims && m in w.claims && IsBound(w.claims[n]) && IsBound(w.claims[m]) ==>
              && n in bound && m in bound
              && (bound[n].poolRef == bound[m].poolRef ==>
                    var c, d := w.claims[n].status.cidr.value, w.claims[m].status.cidr.value;
                    && (c == d <==> bound[n].clusterID == bound[m].clusterID)
                    && (bound[n].clusterID != bound[m].clusterID ==> Disjoint(c, d))
                    && exists k :: k in w.store && Owns(bound[n], c, w.store[k])
                         && forall j :: j in w.store && j != k ==> !Owns(bound[n], c, w.store[j]))
  {
    BindingsHeld(sha1, actions);
    var w, bound := Acts(sha1, START, actions), Bindings(sha1, actions);
    if n in w.claims && m in w.claims && IsBound(w.claims[n]) && IsBound(w.claims[m])
       && bound[n].poolRef == bound[m].poolRef {
      HeldApart(sha1, w.pools, w.store,
                bound[n], w.claims[n].status.cidr.value, bound[m], w.claims[m].status.cidr.value);
    }
  }

  /** When is a Bound claim still backed after edits: if its pool is the one it was bound in, exactly when its cluster
      is the one it was bound for; and in another pool only if that pool has the CIDR, too. */
  lemma BackedIffUnedited(sha1: Sha1, actions: seq<Action>, n: string)
    requires AllSettled(sha1, START, actions)
    ensures var w, bound := Acts(sha1, START, actions), Bindings(sha1, actions);
            n in w.claims && IsBound(w.claims[n]) ==>
              var claim := w.claims[n];
              var cidr, p := claim.status.cidr.value, claim.spec.poolRef;
              && n in bound
              && (p == bound[n].poolRef || p !in w.pools || !Within(cidr, w.pools[p].cidr) ==>
                    (Backed(w.store, claim) <==> SameHolder(claim.spec, bound[n])))
  {
    BindingsHeld(sha1, actions);
    var w, bound := Acts(sha1, START, actions), Bindings(sha1, actions);
    if n in w.claims && IsBound(w.claims[n]) {
      BackedOrElsewhere(sha1, w, w.claims[n], bound[n]);
    }
  }

  lemma BackedOrElsewhere(sha1: Sha1, w: World, claim: Claim, bound: ClaimSpec)
    requires StoreOk(sha1, w.pools, w.store) && IsBound(claim) && HeldBy(w.store, bound, claim.status.cidr.value)
    ensures SameHolder(claim.spec, bound) ==> Backed(w.store, claim)
    ensures Backed(w.store, claim) ==>
              || SameHolder(claim.spec, bound)
              || (claim.spec.poolRef != bound.poolRef && claim.spec.poolRef in w.pools
                  && Within(claim.status.cidr.value, w.pools[claim.spec.poolRef].cidr))
  {
    var cidr := claim.status.cidr.value;
    var k :| k in w.store && Owns(bound, cidr, w.store[k]);
    if SameHolder(claim.spec, bound) { assert Owns(claim.spec, cidr, w.store[k]); }
    if Backed(w.store, claim) {
      var n :| n in w.store && Owns(claim.spec, cidr, w.store[n]);
      assert Placed(sha1, w.pools, n, w.store[n]);
      if claim.spec.poolRef == bound.poolRef { HeldApart(sha1, w.pools, w.store, bound, cidr, claim.spec, cidr); }
    }
  }

  /** A Subnet of this pool and cluster with this CIDR appears between the two worlds. */
  ghost predicate Gives(w: World, w': World, spec: ClaimSpec, c: Cidr) {
    exists n :: n !in w.store && n in w'.store && Owns(spec, c, w'.store[n])
  }

  ghost predicate GivenIn(sha1: Sha1, actions: seq<Action>, i: nat, spec: ClaimSpec, c: Cidr)
    requires i < |actions|
  {
    Gives(Acts(sha1, START, actions[..i]), Acts(sha1, START, actions[..i + 1]), spec, c)
  }

  lemma ActGrows(sha1: Sha1, w: World, a: Action)
    requires !a.DeleteSubnet?
    ensures Includes(Act(sha1, w, a).store, w.store)
  {
    if a.ReconcileClaim? && a.name in w.claims {
      ReconcileGrows(Context(sha1, w.pools), w.store, w.claims[a.name], a.order, a.pick);
    }
  }

  lemma HeldStep(w: World, w': World, spec: ClaimSpec, c: Cidr)
    requires Includes(w'.store, w.store)
    ensures HeldBy(w'.store, spec, c) <==> HeldBy(w.store, spec, c) || Gives(w, w', spec, c)
  {
    if HeldBy(w.store, spec, c) { HeldGrows(w.store, w'.store, spec, c); }
  }

  /** At some step of the run the pool and the cluster of the spec were given the CIDR. */
  ghost predicate GivenBy(sha1: Sha1, actions: seq<Action>, spec: ClaimSpec, c: Cidr) {
    exists i :: 0 <= i < |actions| && GivenIn(sha1, actions, i, spec, c)
  }

  lemma GivenEarlier(sha1: Sha1, init: seq<Action>, a: Action, i: nat, spec: ClaimSpec, c: Cidr)
    requires i < |init|
    ensures GivenIn(sha1, init + [a], i, spec, c) <==> GivenIn(sha1, init, i, spec, c)
  {
    assert (init + [a])[..i] == init[..i] && (init + [a])[..i + 1] == init[..i + 1];
  }

  lemma GivenLast(sha1: Sha1, init: seq<Action>, a: Action, spec: ClaimSpec, c: Cidr)
    ensures var w := Acts(sha1, START, init);
            GivenIn(sha1, init + [a], |init|, spec, c) <==> Gives(w, Act(sha1, w, a), spec, c)
  {
    ActsMore(sha1, START, init, a);
    assert (init + [a])[..|init|] == init && (init + [a])[..|init| + 1] == init + [a];
  }

  lemma GivenMore(sha1: Sha1, init: seq<Action>, a: Action, spec: ClaimSpec, c: Cidr)
    ensures var w := Acts(sha1, START, init);
            GivenBy(sha1, init + [a], spec, c) <==> GivenBy(sha1, init, spec, c) || Gives(w, Act(sha1, w, a), spec, c)
  {
    GivenLast(sha1, init, a, spec, c);
    forall i: nat | i < |init| ensures GivenIn(sha1, init + [a], i, spec, c) <==> GivenIn(sha1, init, i, spec, c) {
      GivenEarlier(sha1, init, a, i, spec, c);
    }
  }

  lemma {:induction false} HeldIffGiven(sha1: Sha1, actions: seq<Action>, spec: ClaimSpec, c: Cidr)
    requires forall a :: a in actions ==> !a.DeleteSubnet?
    ensures HeldBy(Acts(sha1, START, actions).store, spec, c) <==> GivenBy(sha1, actions, spec, c)
  {
    if actions != [] {
      var init, a := actions[..|actions| - 1], actions[|actions| - 1];
      var w := Acts(sha1, START, init);
      HeldIffGiven(sha1, init, spec, c);
      ActGrows(sha1, w, a);
      HeldStep(w, Act(sha1, w, a), spec, c);
      GivenMore(sha1, init, a, spec, c);
      assert actions == init + [a];
    }
  }

  /** In general, a Bound claim is backed exactly if at some step of the run the pool and the cluster that it names now
      were given its CIDR. */
  lemma BackedIffGiven(sha1: Sha1, actions: seq<Action>, n: string)
    requires forall a :: a in actions ==> !a.DeleteSubnet?
    ensures var w := Acts(sha1, START, actions);
            n in w.claims && IsBound(w.claims[n]) ==>
              (Backed(w.store, w.claims[n]) <==>
               GivenBy(sha1, actions, w.claims[n].spec, w.claims[n].status.cidr.value))
  {
    var w := Acts(sha1, START, actions);
    if n in w.claims && IsBound(w.claims[n]) {
      HeldIffGiven(sha1, actions, w.claims[n].spec, w.claims[n].status.cidr.value);
    }
  }

  /** Pool and cluster of a claim are not edited. */
  predicate KeepsClaim(w: World, a: Action) {
    a.EditClaim? && a.name in w.claims ==> SameHolder(a.spec, w.claims[a.name].spec)
  }

  ghost predicate KeepsClaims(sha1: Sha1, actions: seq<Action>) {
    forall i :: 0 <= i < |actions| ==> KeepsClaim(Acts(sha1, START, actions[..i]), actions[i])
  }

  ghost predicate SpecsKept(w: World, bound: map<string, ClaimSpec>) {
    forall n :: n in bound && n in w.claims && IsBound(w.claims[n]) ==> SameHolder(w.claims[n].spec, bound[n])
  }

  lemma ActKeepsSpec(sha1: Sha1, w: World, a: Action, bound: map<string, ClaimSpec>)
    requires StatusesOk(w) && SpecsKept(w, bound) && KeepsClaim(w, a)
    ensures SpecsKept(Act(sha1, w, a), Record(w, Act(sha1, w, a), bound))
  {
    if a.ReconcileClaim? && a.name in w.claims {
      ReconcileStatus(Context(sha1, w.pools), w.store, w.claims[a.name], a.order, a.pick);
    }
  }

  /** Without such edits every Bound claim still has the pool and the cluster it was bound with. */
  lemma {:induction false} UneditedRuns(sha1: Sha1, actions: seq<Action>)
    requires KeepsClaims(sha1, actions)
    ensures StatusesOk(Acts(sha1, START, actions))
    ensures SpecsKept(Acts(sha1, START, actions), Bindings(sha1, actions))
  {
    if actions != [] {
      var n := |actions| - 1;
      assert KeepsClaims(sha1, actions[..n]) by {
        forall i | 0 <= i < n ensures KeepsClaim(Acts(sha1, START, actions[..n][..i]), actions[..n][i]) {
          assert actions[..n][..i] == actions[..i];
        }
      }
      UneditedRuns(sha1, actions[..n]);
      ActKeepsStatuses(sha1, Acts(sha1, START, actions[..n]), actions[n]);
      ActKeepsSpec(sha1, Acts(sha1, START, actions[..n]), actions[n], Bindings(sha1, actions[..n]));
    }
  }

  /** So then two Bound claims of one pool carry the same CIDR exactly if they name the same cluster. */
  lemma UneditedIdempotent(sha1: Sha1, actions: seq<Action>, n: string, m: string)
    requires AllSettled(sha1, START, actions) && KeepsClaims(sha1, actions)
    ensures var w := Acts(sha1, START, actions);
            n in w.claims && m in w.claims && IsBound(w.claims[n]) && IsBound(w.claims[m])
            && w.claims[n].spec.poolRef == w.claims[m].spec.poolRef ==>
              var c, d := w.claims[n].status.cidr.value, w.claims[m].status.cidr.value;
              && Backed(w.store, w.claims[n])
              && if w.claims[n].spec.clusterID == w.claims[m].spec.clusterID then c == d else Disjoint(c, d)
  {
    Idempotent(sha1, actions, n, m);
    BackedIffUnedited(sha1, actions, n);
    UneditedRuns(sha1, actions);
  }

  /** What is wrong with a claim before any allocation is tried. */
  function Objection(pools: map<string, Pool>, spec: ClaimSpec): Option<string> {
    if spec.poolRef !in pools then Some(PoolNotFound(spec)) else ValidateClaim(spec, pools[spec.poolRef])
  }

  /** What an undisturbed reconciliation makes of a claim that is not Bound: it ends in Error with the objection, if
      there is one, or with a message, if the cluster ID names a Subnet of another pool; it is Bound to such a Subnet of
      its own pool; and otherwise it is Bound or in Error, as the allocation decides. */
  lemma ReconcileDecides(ctx: Context, store: Store, claim: Claim, order: seq<Cidr>, pick: Subnet)
    requires ClaimOk(claim) && !IsBound(claim)
    ensures var status, e, id := Reconcile(ctx, store, claim, order, pick).1.status, Objection(ctx.pools, claim.spec),
              claim.spec.clusterID;
            && (status.phase == Bound || status.phase == Error)
            && (e.Some? ==> status.phase == Error && status.message == e.value)
            && (claim.spec.poolRef !in ctx.pools ==> status.message == "Pool " + claim.spec.poolRef + " not found")
            && (e.None? && id in store && store[id].poolRef != claim.spec.poolRef ==> status.phase == Error)
            && (e.None? && id in store && store[id].poolRef == claim.spec.poolRef ==>
                  status.phase == Bound && status.cidr == Some(store[id].cidr))
            && (e.None? && id !in store ==>
                  var r := SerialAllocate(ctx.sha1, store, claim.spec, ctx.pools[claim.spec.poolRef], order, pick).1;
                  match r
                  case Allocated(c) => status.phase == Bound && status.cidr == Some(c)
                  case Refused(err) =>
                    && status.phase == Error
                    && (err.ExhaustedError? ==>
                          status.message == "Pool " + claim.spec.poolRef + " is exhausted: " + err.message)
                    && (!err.ExhaustedError? ==> status.message == err.message))
  {}

  /** Two reconcilers of one claim. One of them, working from an unbound version, writes its status over one that the
      other has bound in the meantime. The binding survives exactly if there is nothing to object to in the claim,
      or if the unbound version already says so. */
  lemma BoundSurvivesIff(ctx: Context, store: Store, claim: Claim, latest: Claim, order: seq<Cidr>, pick: Subnet)
    requires StoreOk(ctx.sha1, ctx.pools, store) && Enabled(store, claim.spec, order, pick)
    requires ClaimOk(claim) && !IsBound(claim) && claim.spec.clusterID !in store
    requires IsBound(latest) && HeldBy(store, claim.spec, latest.status.cidr.value)
    ensures var claim', e := Reconcile(ctx, store, claim, order, pick).1, Objection(ctx.pools, claim.spec);
            var after := AfterUpdate(claim, claim', latest, false);
            IsBound(after) && after.status.cidr == latest.status.cidr <==>
            e.None? || (claim.status.phase == Error && claim.status.message == e.value)
  {
    if Objection(ctx.pools, claim.spec).None? {
      ReusesSubnet(ctx, store, claim, latest.status.cidr.value, order, pick);
    }
  }

  /** A valid claim whose cluster has a Subnet gets its CIDR. */
  lemma ReusesSubnet(ctx: Context, store: Store, claim: Claim, cidr: Cidr, order: seq<Cidr>, pick: Subnet)
    requires StoreOk(ctx.sha1, ctx.pools, store) && Enabled(store, claim.spec, order, pick)
    requires Reaches(ctx, claim) && claim.spec.clusterID !in store && HeldBy(store, claim.spec, cidr)
    ensures Reconcile(ctx, store, claim, order, pick) == (store, WithStatus(claim, Bound, Some(cidr), ""))
  {
    var spec, view := claim.spec, PoolSubnets(store, claim.spec.poolRef);
    var n :| n in store && Owns(spec, cidr, store[n]);
    assert store[n] in Existing(view, spec);
    var k :| k in store && store[k] == pick;
    assert Owns(spec, pick.cidr, store[k]);
    HeldApart(ctx.sha1, ctx.pools, store, spec, cidr, spec, pick.cidr);
  }

  // ---------------------------------------------------------------- edits of Bound claims

  lemma ActsMore(sha1: Sha1, w: World, actions: seq<Action>, a: Action)
    ensures Acts(sha1, w, actions + [a]) == Act(sha1, Acts(sha1, w, actions), a)
  {
    assert (actions + [a])[..|actions|] == actions;
  }

  lemma AllSettledMore(sha1: Sha1, w: World, actions: seq<Action>, a: Action)
    requires AllSettled(sha1, w, actions) && Settled(sha1, Acts(sha1, w, actions), a)
    ensures AllSettled(sha1, w, actions + [a])
  {
    var more := actions + [a];
    assert more[..|actions|] == actions;
    forall i | 0 <= i < |more| ensures Settled(sha1, Acts(sha1, w, more[..i]), more[i]) {
      if i < |actions| { assert more[..i] == actions[..i]; }
    }
  }

  /** Two Bound claims of one pool and one cluster with disjoint CIDRs, of which only the first is backed. */
  ghost predicate AtOdds(w: World, n: string, m: string) {
    && n in w.claims && m in w.claims && IsBound(w.claims[n]) && IsBound(w.claims[m])
    && SameHolder(w.claims[n].spec, w.claims[m].spec)
    && Disjoint(w.claims[n].status.cidr.value, w.claims[m].status.cidr.value)
    && Backed(w.store, w.claims[n]) && !Backed(w.store, w.claims[m])
  }

  lemma EditSetsAtOdds(sha1: Sha1, w: World, n: string, m: string, bn: ClaimSpec, bm: ClaimSpec)
    requires StoreOk(sha1, w.pools, w.store)
    requires n in w.claims && m in w.claims && IsBound(w.claims[n]) && IsBound(w.claims[m])
    requires HeldBy(w.store, bn, w.claims[n].status.cidr.value) && HeldBy(w.store, bm, w.claims[m].status.cidr.value)
    requires SameHolder(w.claims[n].spec, bn) && bn.poolRef == bm.poolRef && bn.clusterID != bm.clusterID
    ensures AtOdds(Edited(w, m, w.claims[n].spec), n, m)
  {
    var w' := Edited(w, m, w.claims[n].spec);
    HeldApart(sha1, w.pools, w.store, bn, w.claims[n].status.cidr.value, bm, w.claims[m].status.cidr.value);
    BackedOrElsewhere(sha1, w', w'.claims[n], bn);
    BackedOrElsewhere(sha1, w', w'.claims[m], bm);
  }

  /** After any run with two Bound claims that were bound in one pool for different clusters, giving one of them the
      spec of the other yields two Bound claims of one pool and one cluster with different CIDRs. */
  lemma EditUnbacks(sha1: Sha1, actions: seq<Action>, n: string, m: string)
    requires AllSettled(sha1, START, actions)
    requires var w, bound := Acts(sha1, START, actions), Bindings(sha1, actions);
             && n in w.claims && m in w.claims && IsBound(w.claims[n]) && IsBound(w.claims[m])
             && n in bound && m in bound && SameHolder(w.claims[n].spec, bound[n])
             && bound[n].poolRef == bound[m].poolRef && bound[n].clusterID != bound[m].clusterID
    ensures var more := actions + [EditClaim(m, Acts(sha1, START, actions).claims[n].spec)];
            AllSettled(sha1, START, more) && AtOdds(Acts(sha1, START, more), n, m)
  {
    var w := Acts(sha1, START, actions);
    BindingsHeld(sha1, actions);
    AllSettledMore(sha1, START, actions, EditClaim(m, w.claims[n].spec));
    ActsMore(sha1, START, actions, EditClaim(m, w.claims[n].spec));
    EditSetsAtOdds(sha1, w, n, m, Bindings(sha1, actions)[n], Bindings(sha1, actions)[m]);
  }

  /** The cluster has no Subnet in the pool, and its candidate has a free name. */
  ghost predicate Candidate(sha1: Sha1, store: Store, spec: ClaimSpec, pool: Pool, order: seq<Cidr>, c: Cidr) {
    var view := PoolSubnets(store, spec.poolRef);
    && Existing(view, spec) == {} && Lists(order, CidrsOf(view))
    && SelectCandidate(spec, pool, order, view) == Allocated(c) && NameFor(sha1, spec, c) !in store
  }

  lemma ReconcileFresh(ctx: Context, store: Store, claim: Claim, order: seq<Cidr>, c: Cidr)
    requires Reaches(ctx, claim) && claim.status == NEW_STATUS && claim.spec.clusterID !in store
    requires Candidate(ctx.sha1, store, claim.spec, ctx.pools[claim.spec.poolRef], order, c)
    ensures Reconcile(ctx, store, claim, order, NO_SUBNET)
            == (store[NameFor(ctx.sha1, claim.spec, c) := SubnetFor(claim.spec, c)], Applied(claim, Bound, Some(c), ""))
  {
    assert SerialAllocate(ctx.sha1, store, claim.spec, ctx.pools[claim.spec.poolRef], order, NO_SUBNET)
           == (store[NameFor(ctx.sha1, claim.spec, c) := SubnetFor(claim.spec, c)], Allocated(c));
  }

  /** The claim is Bound to a new Subnet. */
  function Rebound(sha1: Sha1, w: World, name: string, spec: ClaimSpec, c: Cidr): World {
    World(w.pools, w.store[NameFor(sha1, spec, c) := SubnetFor(spec, c)], w.claims[name := BoundTo(spec, c)])
  }

  /** One undisturbed reconciliation of a new claim for which a candidate is found under a free name. */
  lemma BindsFresh(sha1: Sha1, w: World, name: string, spec: ClaimSpec, order: seq<Cidr>, c: Cidr)
    requires name in w.claims && w.claims[name] == Claim(spec, 1, NEW_STATUS)
    requires Reaches(Context(sha1, w.pools), w.claims[name]) && spec.clusterID !in w.store
    requires Candidate(sha1, w.store, spec, w.pools[spec.poolRef], order, c)
    ensures Act(sha1, w, ReconcileClaim(name, order, NO_SUBNET, Complete)) == Rebound(sha1, w, name, spec, c)
  {
    ReconcileFresh(Context(sha1, w.pools), w.store, w.claims[name], order, c);
    CompleteReconcile(sha1, w, name, order, NO_SUBNET);
  }

  lemma CompleteReconcile(sha1: Sha1, w: World, name: string, order: seq<Cidr>, pick: Subnet)
    requires name in w.claims && Enabled(w.store, w.claims[name].spec, order, pick)
    ensures var (store, claim) := Reconcile(Context(sha1, w.pools), w.store, w.claims[name], order, pick);
            Act(sha1, w, ReconcileClaim(name, order, pick, Complete)) == World(w.pools, store, w.claims[name := claim])
  {}

  // ---------------------------------------------------------------- a cluster ID that is an encoded name

  /** Claim a on a new pool is added and bound. */
  function FirstClaim(p: string, pool: Pool, size: nat): seq<Action> {
    [SetPool(p, pool), AddClaim("a", Wants(p, "a", size)), ReconcileClaim("a", [], NO_SUBNET, Complete)]
  }

  /** Then claim b is added and reconciled. */
  function ThenClaim(b: ClaimSpec, order: seq<Cidr>): seq<Action> {
    [AddClaim("b", b), ReconcileClaim("b", order, NO_SUBNET, Complete)]
  }

  /** A claim with this spec, Bound to `c` since its creation. */
  function BoundTo(spec: ClaimSpec, c: Cidr): Claim {
    Applied(Claim(spec, 1, NEW_STATUS), Bound, Some(c), "")
  }

  lemma {:induction false} ActsInSteps(sha1: Sha1, w: World, first: seq<Action>, second: seq<Action>)
    ensures Acts(sha1, w, first + second) == Acts(sha1, Acts(sha1, w, first), second)
    decreases |second|
  {
    if second == [] {
      assert first + second == first;
    } else {
      var init, a := LastApart(first, second);
      ActsInSteps(sha1, w, first, init);
      ActsMore(sha1, w, first + init, a);
      ActsMore(sha1, Acts(sha1, w, first), init, a);
    }
  }

  lemma TwoActs(sha1: Sha1, w: World, a: Action, b: Action)
    ensures Acts(sha1, w, [a, b]) == Act(sha1, Act(sha1, w, a), b)
  {
    assert [a, b][..1] == [a] && [a][..0] == [];
    assert Acts(sha1, w, [a]) == Act(sha1, w, a);
  }

  lemma FirstBinding(sha1: Sha1, p: string, pool: Pool, size: nat) returns (w: World)
    requires Usable(pool, size) && ValidateClaim(Wants(p, "a", size), pool).None?
    ensures w == Acts(sha1, START, FirstClaim(p, pool, size))
    ensures var c := BlockAt(Mask(pool.cidr), size, 0);
            w == World(map[p := pool], map[EncodeAllocationName(sha1, p, c) := Subnet(p, c, "a")],
                       map["a" := BoundTo(Wants(p, "a", size), c)])
  {
    var h := FirstClaim(p, pool, size);
    TwoActs(sha1, START, h[0], h[1]);
    assert h[..2] == [h[0], h[1]];
    FirstReconcile(sha1, p, pool, "a", "a", size);
    var w2 := World(map[p := pool], map[], map["a" := Claim(Wants(p, "a", size), 1, NEW_STATUS)]);
    assert Act(sha1, Act(sha1, START, h[0]), h[1]) == w2;
    w := Act(sha1, w2, h[2]);
  }

  /** The only claim, on the only pool, gets the first block of its size. */
  lemma FirstReconcile(sha1: Sha1, p: string, pool: Pool, name: string, id: string, size: nat)
    requires Usable(pool, size) && ValidateClaim(Wants(p, id, size), pool).None?
    ensures var c := BlockAt(Mask(pool.cidr), size, 0);
            Act(sha1, World(map[p := pool], map[], map[name := Claim(Wants(p, id, size), 1, NEW_STATUS)]),
                ReconcileClaim(name, [], NO_SUBNET, Complete))
            == World(map[p := pool], map[EncodeAllocationName(sha1, p, c) := Subnet(p, c, id)],
                     map[name := BoundTo(Wants(p, id, size), c)])
  {
    EmptyPoolCandidate(Wants(p, id, size), pool);
    assert PoolSubnets(map[], p) == {} && CidrsOf({}) == {} && Lists([], {});
  }

  lemma DashInName(sha1: Sha1, p: string, c: Cidr, id: string)
    requires c.V4? && '-' !in id
    ensures EncodeAllocationName(sha1, p, c) != id
  {
    var h, t := NameEnding(sha1, p, c);
    assert '-' == (h + "-" + t)[|h|];
  }

  /** Claim b names a cluster like the Subnet of a. */
  function Hijack(sha1: Sha1, p: string, pool: Pool, size: nat): seq<Action>
    requires Usable(pool, size)
  {
    var c := BlockAt(Mask(pool.cidr), size, 0);
    FirstClaim(p, pool, size) + ThenClaim(Wants(p, EncodeAllocationName(sha1, p, c), size), [c])
  }

  /** The lookup by cluster ID finds Subnets of other clusters: in every pool there is a run that binds two claims
      with different cluster IDs to the same CIDR, backed by a Subnet of the first cluster only. */
  lemma HijackedLookup(sha1: Sha1, p: string, pool: Pool, size: nat)
    requires Usable(pool, size) && ValidateClaim(Wants(p, "a", size), pool).None?
    ensures var w := Acts(sha1, START, Hijack(sha1, p, pool, size));
            && "a" in w.claims && "b" in w.claims && IsBound(w.claims["a"]) && IsBound(w.claims["b"])
            && w.claims["a"].spec.clusterID != w.claims["b"].spec.clusterID
            && w.claims["a"].status.cidr == w.claims["b"].status.cidr
            && Backed(w.store, w.claims["a"]) && !Backed(w.store, w.claims["b"])
  {
    var c := BlockAt(Mask(pool.cidr), size, 0);
    var name := EncodeAllocationName(sha1, p, c);
    var next := ThenClaim(Wants(p, name, size), [c]);
    DashInName(sha1, p, c, "a");
    var w3 := FirstBinding(sha1, p, pool, size);
    var w4 := Act(sha1, w3, next[0]);
    ActsInSteps(sha1, START, FirstClaim(p, pool, size), next);
    TwoActs(sha1, w3, next[0], next[1]);
    SecondBinding(sha1, w4, p, pool, c, size);
    var w := Act(sha1, w4, next[1]);
    assert Owns(w.claims["a"].spec, c, w.store[name]);
  }

  lemma SecondBinding(sha1: Sha1, w: World, p: string, pool: Pool, c: Cidr, size: nat)
    requires ValidateClaim(Wants(p, "a", size), pool).None? && w.pools == map[p := pool]
    requires var name := EncodeAllocationName(sha1, p, c);
             && name != "a" && w.store == map[name := Subnet(p, c, "a")]
             && "b" in w.claims && w.claims["b"] == Claim(Wants(p, name, size), 1, NEW_STATUS)
    ensures var w' := Act(sha1, w, ReconcileClaim("b", [c], NO_SUBNET, Complete));
            w' == w.(claims := w.claims["b" := Applied(w.claims["b"], Bound, Some(c), "")])
  {
    var name, none := EncodeAllocationName(sha1, p, c), NO_SUBNET;
    OneSubnetEnabled(w.store, name, Subnet(p, c, "a"), Wants(p, name, size), none);
    LookupBinds(Context(sha1, w.pools), w.store, w.claims["b"], [c], none);
  }

  lemma OneSubnetEnabled(store: Store, name: string, s: Subnet, spec: ClaimSpec, pick: Subnet)
    requires store == map[name := s] && s.poolRef == spec.poolRef && s.clusterID != spec.clusterID
    ensures PoolSubnets(store, spec.poolRef) == {s} && Existing({s}, spec) == {} && Enabled(store, spec, [s.cidr], pick)
  {
    assert name in store;
    assert PoolSubnets(store, spec.poolRef) == {s} && CidrsOf({s}) == {s.cidr};
    assert Elements([s.cidr]) == {s.cidr};
  }

  lemma LookupBinds(ctx: Context, store: Store, claim: Claim, order: seq<Cidr>, pick: Subnet)
    requires Reaches(ctx, claim) && claim.status == NEW_STATUS && claim.spec.clusterID in store
    requires store[claim.spec.clusterID].poolRef == claim.spec.poolRef
    ensures Reconcile(ctx, store, claim, order, pick)
            == (store, Applied(claim, Bound, Some(store[claim.spec.clusterID].cidr), ""))
  {}

  // ---------------------------------------------------------------- runs with edits

  /** Claims a and b of different clusters are bound in one pool, then b gets the spec of a. */
  function Regroup(p: string, pool: Pool, size: nat): seq<Action>
    requires Usable(pool, size)
  {
    FirstClaim(p, pool, size) + ThenClaim(Wants(p, "b", size), [BlockAt(Mask(pool.cidr), size, 0)])
    + [EditClaim("b", Wants(p, "a", size))]
  }

  lemma SecondCandidate(p: string, pool: Pool, size: nat, view: set<Subnet>)
    requires Usable(pool, size) && pool.cidr.len < size
    ensures var m := Mask(pool.cidr);
            && TotalBlocks(m, size) > 1
            && SelectCandidate(Wants(p, "b", size), pool, [BlockAt(m, size, 0)], view) == Allocated(BlockAt(m, size, 1))
            && Disjoint(BlockAt(m, size, 0), BlockAt(m, size, 1))
  {
    var m := Mask(pool.cidr);
    var c := BlockAt(m, size, 0);
    Pow2Grows(0, size - pool.cidr.len);
    assert FirstBlocks(m, size, [c]);
    NextBlock(pool.cidr, size, [c], [c]);
    BlocksDisjoint(m, size, 0, 1);
  }

  /** Claims a and b, both Bound, in a pool each; the pools may be the same. */
  function TwoBound(sha1: Sha1, pools: map<string, Pool>, a: ClaimSpec, c: Cidr, b: ClaimSpec, d: Cidr): World {
    World(pools, map[NameFor(sha1, a, c) := SubnetFor(a, c)][NameFor(sha1, b, d) := SubnetFor(b, d)],
          map["a" := BoundTo(a, c), "b" := BoundTo(b, d)])
  }

  /** The second claim of the pool is new. */
  function OneBound(sha1: Sha1, pools: map<string, Pool>, a: ClaimSpec, c: Cidr, b: ClaimSpec): World {
    World(pools, map[NameFor(sha1, a, c) := SubnetFor(a, c)],
          map["a" := BoundTo(a, c), "b" := Claim(b, 1, NEW_STATUS)])
  }

  lemma SecondBound(sha1: Sha1, pools: map<string, Pool>, a: ClaimSpec, c: Cidr, b: ClaimSpec, d: Cidr)
    ensures Rebound(sha1, OneBound(sha1, pools, a, c, b), "b", b, d) == TwoBound(sha1, pools, a, c, b, d)
  {}

  lemma SecondReaches(ctx: Context, p: string, pool: Pool, size: nat)
    requires p in ctx.pools && ctx.pools[p] == pool && ValidateClaim(Wants(p, "a", size), pool).None?
    ensures Reaches(ctx, Claim(Wants(p, "b", size), 1, NEW_STATUS))
  {}

  lemma SecondIsCandidate(sha1: Sha1, store: Store, b: ClaimSpec, pool: Pool, s: Subnet, d: Cidr)
    requires var name := EncodeAllocationName(sha1, b.poolRef, s.cidr);
             && store == map[name := s] && s.poolRef == b.poolRef && s.clusterID != b.clusterID
    requires SelectCandidate(b, pool, [s.cidr], {s}) == Allocated(d) && !Clash(sha1, b.poolRef, s.cidr, b.poolRef, d)
    ensures Candidate(sha1, store, b, pool, [s.cidr], d)
  {
    OneSubnetEnabled(store, EncodeAllocationName(sha1, b.poolRef, s.cidr), s, b, NO_SUBNET);
  }

  lemma SecondReconcile(sha1: Sha1, p: string, pool: Pool, size: nat, c: Cidr, d: Cidr)
    requires ValidateClaim(Wants(p, "a", size), pool).None? && c.V4? && !Clash(sha1, p, c, p, d)
    requires SelectCandidate(Wants(p, "b", size), pool, [c], {Subnet(p, c, "a")}) == Allocated(d)
    ensures var a, b, pools := Wants(p, "a", size), Wants(p, "b", size), map[p := pool];
            Act(sha1, OneBound(sha1, pools, a, c, b), ReconcileClaim("b", [c], NO_SUBNET, Complete))
            == TwoBound(sha1, pools, a, c, b, d)
  {
    var b := Wants(p, "b", size);
    var w := OneBound(sha1, map[p := pool], Wants(p, "a", size), c, b);
    DashInName(sha1, p, c, "b");
    SecondIsCandidate(sha1, w.store, b, pool, Subnet(p, c, "a"), d);
    SecondReaches(Context(sha1, w.pools), p, pool, size);
    BindsFresh(sha1, w, "b", b, [c], d);
    SecondBound(sha1, map[p := pool], Wants(p, "a", size), c, b, d);
  }

  lemma BlocksNamedApart(sha1: Sha1, p: string, pool: Pool, size: nat)
    requires Usable(pool, size) && TotalBlocks(Mask(pool.cidr), size) > 1 && NamesDistinct(sha1, map[p := pool])
    requires Disjoint(BlockAt(Mask(pool.cidr), size, 0), BlockAt(Mask(pool.cidr), size, 1))
    ensures !Clash(sha1, p, BlockAt(Mask(pool.cidr), size, 0), p, BlockAt(Mask(pool.cidr), size, 1))
  {
    var c, d, pools := BlockAt(Mask(pool.cidr), size, 0), BlockAt(Mask(pool.cidr), size, 1), map[p := pool];
    assert p in pools && Within(c, pools[p].cidr) && Within(d, pools[p].cidr);
    assert Clash(sha1, p, c, p, d) ==> c == d;
  }

  lemma SecondInPool(sha1: Sha1, p: string, pool: Pool, size: nat) returns (c: Cidr, d: Cidr)
    requires Usable(pool, size) && pool.cidr.len < size && ValidateClaim(Wants(p, "a", size), pool).None?
    requires NamesDistinct(sha1, map[p := pool])
    ensures c == BlockAt(Mask(pool.cidr), size, 0) && Disjoint(c, d) && !Clash(sha1, p, c, p, d)
    ensures Acts(sha1, START, FirstClaim(p, pool, size) + ThenClaim(Wants(p, "b", size), [c]))
            == TwoBound(sha1, map[p := pool], Wants(p, "a", size), c, Wants(p, "b", size), d)
  {
    c := BlockAt(Mask(pool.cidr), size, 0);
    var next := ThenClaim(Wants(p, "b", size), [c]);
    var w3 := FirstBinding(sha1, p, pool, size);
    assert Act(sha1, w3, next[0]) == OneBound(sha1, map[p := pool], Wants(p, "a", size), c, Wants(p, "b", size));
    ActsInSteps(sha1, START, FirstClaim(p, pool, size), next);
    TwoActs(sha1, w3, next[0], next[1]);
    SecondCandidate(p, pool, size, {Subnet(p, c, "a")});
    d := BlockAt(Mask(pool.cidr), size, 1);
    BlocksNamedApart(sha1, p, pool, size);
    SecondReconcile(sha1, p, pool, size, c, d);
  }

  lemma NotEncodedDashFree(sha1: Sha1, id: string)
    requires '-' !in id
    ensures NotEncoded(sha1, id)
  {
    forall p, c: Cidr | c.V4? ensures id != EncodeAllocationName(sha1, p, c) {
      DashInName(sha1, p, c, id);
    }
  }

  lemma RegroupSettled(sha1: Sha1, p: string, pool: Pool, size: nat)
    requires Usable(pool, size) && NamesDistinct(sha1, map[p := pool])
    ensures AllSettled(sha1, START, Regroup(p, pool, size))
  {
    var r := Regroup(p, pool, size);
    NotEncodedDashFree(sha1, "a");
    NotEncodedDashFree(sha1, "b");
    forall i | 0 <= i < |r| ensures Settled(sha1, Acts(sha1, START, r[..i]), r[i]) {
      if i == 0 {
        assert r[..0] == [] && map[][p := pool] == map[p := pool];
      }
    }
  }

  lemma RegroupedAtOdds(sha1: Sha1, w: World, p: string, size: nat, pools: map<string, Pool>, c: Cidr, d: Cidr)
    requires w == TwoBound(sha1, pools, Wants(p, "a", size), c, Wants(p, "b", size), d)
    requires Disjoint(c, d) && !Clash(sha1, p, c, p, d)
    ensures AtOdds(Edited(w, "b", Wants(p, "a", size)), "a", "b")
  {
    assert Owns(Wants(p, "a", size), c, w.store[EncodeAllocationName(sha1, p, c)]);
    assert !HeldBy(w.store, Wants(p, "a", size), d);
  }

  /** An edit of a Bound claim breaks idempotency: in every pool there is a run that ends with two Bound claims of the
      same pool and cluster that carry disjoint CIDRs. */
  lemma EditBreaksIdempotency(sha1: Sha1, p: string, pool: Pool, size: nat)
    requires Usable(pool, size) && pool.cidr.len < size && ValidateClaim(Wants(p, "a", size), pool).None?
    requires NamesDistinct(sha1, map[p := pool])
    ensures AllSettled(sha1, START, Regroup(p, pool, size))
    ensures AtOdds(Acts(sha1, START, Regroup(p, pool, size)), "a", "b")
  {
    var a, edit := Wants(p, "a", size), EditClaim("b", Wants(p, "a", size));
    RegroupSettled(sha1, p, pool, size);
    var c, d := SecondInPool(sha1, p, pool, size);
    ActsMore(sha1, START, FirstClaim(p, pool, size) + ThenClaim(Wants(p, "b", size), [c]), edit);
    var w := TwoBound(sha1, map[p := pool], a, c, Wants(p, "b", size), d);
    RegroupedAtOdds(sha1, w, p, size, map[p := pool], c, d);
    assert Act(sha1, w, edit) == Edited(w, "b", a);
  }

  /** Claims a and b of different clusters are bound in two pools with the same CIDR, then a gets the spec of b. */
  function MoveOver(p: string, q: string, pool: Pool, size: nat): seq<Action> {
    FirstClaim(p, pool, size) + [SetPool(q, pool), AddClaim("b", Wants(q, "b", size))]
    + [ReconcileClaim("b", [], NO_SUBNET, Complete), EditClaim("a", Wants(q, "b", size))]
  }

  lemma FirstInOtherPool(sha1: Sha1, p: string, q: string, pool: Pool, size: nat, c: Cidr)
    requires Usable(pool, size) && ValidateClaim(Wants(p, "a", size), pool).None? && p != q
    requires c == BlockAt(Mask(pool.cidr), size, 0) && !Clash(sha1, p, c, q, c)
    ensures var a, b, pools := Wants(p, "a", size), Wants(q, "b", size), map[p := pool, q := pool];
            Act(sha1, OneBound(sha1, pools, a, c, b), ReconcileClaim("b", [], NO_SUBNET, Complete))
            == TwoBound(sha1, pools, a, c, b, c)
  {
    var b := Wants(q, "b", size);
    var w := OneBound(sha1, map[p := pool, q := pool], Wants(p, "a", size), c, b);
    EmptyPoolCandidate(b, pool);
    DashInName(sha1, p, c, "b");
    assert PoolSubnets(w.store, q) == {} && CidrsOf({}) == {} && Lists([], {});
    BindsFresh(sha1, w, "b", b, [], c);
    SecondBound(sha1, w.pools, Wants(p, "a", size), c, b, c);
  }

  lemma MoveOverRuns(sha1: Sha1, p: string, q: string, pool: Pool, size: nat) returns (c: Cidr)
    requires Usable(pool, size) && ValidateClaim(Wants(p, "a", size), pool).None? && p != q
    requires NamesDistinct(sha1, map[p := pool, q := pool])
    ensures var r, a, b := MoveOver(p, q, pool, size), Wants(p, "a", size), Wants(q, "b", size);
            && Acts(sha1, START, r[..3]).claims == map["a" := BoundTo(a, c)]
            && Acts(sha1, START, r)
               == Act(sha1, TwoBound(sha1, map[p := pool, q := pool], a, c, b, c), EditClaim("a", b))
  {
    var r, pools := MoveOver(p, q, pool, size), map[p := pool, q := pool];
    c := BlockAt(Mask(pool.cidr), size, 0);
    var w3 := FirstBinding(sha1, p, pool, size);
    var w5 := OneBound(sha1, pools, Wants(p, "a", size), c, Wants(q, "b", size));
    assert r == r[..3] + ([r[3], r[4]] + [r[5], r[6]]) && r[..3] == FirstClaim(p, pool, size);
    ActsInSteps(sha1, START, r[..3], [r[3], r[4]] + [r[5], r[6]]);
    ActsInSteps(sha1, w3, [r[3], r[4]], [r[5], r[6]]);
    TwoActs(sha1, w3, r[3], r[4]);
    assert Act(sha1, Act(sha1, w3, r[3]), r[4]) == w5;
    TwoActs(sha1, w5, r[5], r[6]);
    assert !Clash(sha1, p, c, q, c) by {
      assert p in pools && q in pools && Within(c, pools[p].cidr) && Within(c, pools[q].cidr);
    }
    FirstInOtherPool(sha1, p, q, pool, size, c);
  }

  /** An edited claim can be backed by a Subnet that it was not bound to, if the pools overlap. */
  lemma MovedAndBacked(sha1: Sha1, p: string, q: string, pool: Pool, size: nat)
    requires Usable(pool, size) && ValidateClaim(Wants(p, "a", size), pool).None? && p != q
    requires NamesDistinct(sha1, map[p := pool, q := pool])
    ensures var r := MoveOver(p, q, pool, size);
            var w3, w := Acts(sha1, START, r[..3]), Acts(sha1, START, r);
            && "a" in w3.claims && IsBound(w3.claims["a"]) && w3.claims["a"].spec == Wants(p, "a", size)
            && "a" in w.claims && w.claims["a"].status == w3.claims["a"].status
            && w.claims["a"].spec == Wants(q, "b", size) && Backed(w.store, w.claims["a"])
  {
    var b := Wants(q, "b", size);
    var c := MoveOverRuns(sha1, p, q, pool, size);
    var w6 := TwoBound(sha1, map[p := pool, q := pool], Wants(p, "a", size), c, b, c);
    assert Owns(b, c, w6.store[NameFor(sha1, b, c)]);
  }
}
