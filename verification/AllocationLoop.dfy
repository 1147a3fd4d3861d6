/** `allocateCIDR` and `createAllocation` as they run against an API server that other clients write to
    between any two requests, and whose requests may fail. */
module AllocationLoop {
  import opened Cidrs
  import opened Bitmap
  import opened MarkOrder
  import opened Allocator
  import opened Names
  import opened Protocol

  /** What happens to the server just before it answers the next request. */
  datatype Disturbance = Calm | Fails | Others(subnets: Store, pools: map<string, Pool>)

  function NextStore(subnets: Store, script: seq<Disturbance>): Store {
    if script != [] && script[0].Others? then script[0].subnets else subnets
  }

  function NextPools(pools: map<string, Pool>, script: seq<Disturbance>): map<string, Pool> {
    if script != [] && script[0].Others? then script[0].pools else pools
  }

  predicate NextFails(script: seq<Disturbance>) {
    script != [] && script[0].Fails?
  }

  function Rest(script: seq<Disturbance>): seq<Disturbance> {
    if script == [] then [] else script[1..]
  }

  datatype CreateReply = Created | AlreadyExists | CreateFailed

  class ApiServer {
    var subnets: Store
    var pools: map<string, Pool>
    var script: seq<Disturbance>
    /** Create requests of this client so far, and how many of them succeeded. */
    var requests: nat
    var accepted: nat

    constructor (subnets: Store, pools: map<string, Pool>, script: seq<Disturbance>)
      ensures this.subnets == subnets && this.pools == pools && this.script == script && requests == accepted == 0
    {
      this.subnets, this.pools := subnets, pools;
      this.script := script;
      requests, accepted := 0, 0;
    }

    method Receive() returns (fails: bool)
      modifies this`subnets, this`pools, this`script
      ensures fails == NextFails(old(script))
      ensures subnets == NextStore(old(subnets), old(script)) && script == Rest(old(script))
      ensures pools == NextPools(old(pools), old(script))
    {
      fails := NextFails(script);
      subnets, pools := NextStore(subnets, script), NextPools(pools, script);
      script := Rest(script);
    }

    /** Create-if-absent is one atomic step. */
    method Create(name: string, s: Subnet) returns (r: CreateReply)
      modifies this
      ensures requests == old(requests) + 1
      ensures accepted == old(accepted) + if r.Created? then 1 else 0
      ensures script == Rest(old(script)) && pools == NextPools(old(pools), old(script))
      ensures var before := NextStore(old(subnets), old(script));
              if NextFails(old(script)) then r == CreateFailed && subnets == before
              else if name in before then r == AlreadyExists && subnets == before
              else r == Created && subnets == before[name := s]
    {
      var fails := Receive();
      requests := requests + 1;
      if fails { return CreateFailed; }
      if name in subnets { return AlreadyExists; }
      subnets := subnets[name := s];
      accepted := accepted + 1;
      return Created;
    }

    method Get(name: string) returns (fails: bool, r: Option<Subnet>)
      modifies this`subnets, this`pools, this`script
      ensures script == Rest(old(script)) && subnets == NextStore(old(subnets), old(script))
      ensures pools == NextPools(old(pools), old(script))
      ensures fails == NextFails(old(script))
      ensures r == if fails || name !in subnets then None else Some(subnets[name])
    {
      fails := Receive();
      r := if fails || name !in subnets then None else Some(subnets[name]);
    }

    method GetPool(name: string) returns (fails: bool, r: Option<Pool>)
      modifies this`subnets, this`pools, this`script
      ensures script == Rest(old(script)) && subnets == NextStore(old(subnets), old(script))
      ensures pools == NextPools(old(pools), old(script)) && fails == NextFails(old(script))
      ensures r == if fails || name !in pools then None else Some(pools[name])
    {
      fails := Receive();
      r := if fails || name !in pools then None else Some(pools[name]);
    }

    /** The Subnets of a pool, in some order. */
    method List(pool: string) returns (ok: bool, items: seq<Subnet>)
      modifies this`subnets, this`pools, this`script
      ensures script == Rest(old(script)) && subnets == NextStore(old(subnets), old(script))
      ensures pools == NextPools(old(pools), old(script))
      ensures ok == !NextFails(old(script))
      ensures ok ==> ViewOf(items) == PoolSubnets(subnets, pool)
    {
      var fails := Receive();
      ok, items := !fails, [];
      var rest := PoolSubnets(subnets, pool);
      while rest != {}
        invariant script == Rest(old(script)) && subnets == NextStore(old(subnets), old(script))
        invariant pools == NextPools(old(pools), old(script))
        invariant rest <= PoolSubnets(subnets, pool)
        invariant ViewOf(items) == PoolSubnets(subnets, pool) - rest
        decreases rest
      {
        var s :| s in rest;
        ViewAppend(items, s);
        items, rest := items + [s], rest - {s};
      }
    }
  }

  function ViewOf(items: seq<Subnet>): set<Subnet> {
    set s | s in items
  }

  lemma ViewAppend(items: seq<Subnet>, s: Subnet)
    ensures ViewOf(items + [s]) == ViewOf(items) + {s}
    ensures CidrsOf(ViewOf(items) + {s}) == CidrsOf(ViewOf(items)) + {s.cidr}
  {
    var v := ViewOf(items);
    assert forall c :: c in CidrsOf(v + {s}) <==> c in CidrsOf(v) + {s.cidr};
  }

  /** The first Subnet of the claim's cluster and pool in the list. */
  method FindExisting(existing: seq<Subnet>, claim: ClaimSpec) returns (r: Option<Subnet>)
    ensures r.Some? ==> r.value in Existing(ViewOf(existing), claim)
    ensures r.None? <==> Existing(ViewOf(existing), claim) == {}
    ensures if r.None?
            then forall s :: s in existing ==> !(s.clusterID == claim.clusterID && s.poolRef == claim.poolRef)
            else r.value in existing && r.value.clusterID == claim.clusterID && r.value.poolRef == claim.poolRef
  {
    for i := 0 to |existing|
      invariant forall j :: 0 <= j < i ==> existing[j] !in Existing(ViewOf(existing), claim)
    {
      var alloc := existing[i];
      if alloc.clusterID == claim.clusterID && alloc.poolRef == claim.poolRef { return Some(alloc); }
    }
    return None;
  }

  method AddUsed(used: set<Cidr>, items: seq<Subnet>) returns (r: set<Cidr>)
    ensures r == used + CidrsOf(ViewOf(items))
  {
    r := used;
    for i := 0 to |items|
      invariant r == used + CidrsOf(ViewOf(items[..i]))
    {
      ViewAppend(items[..i], items[i]);
      assert items[..i + 1] == items[..i] + [items[i]];
      r := r + {items[i].cidr};
    }
    assert items[..|items|] == items;
  }

  /** `refreshAllocationList`: on a failed request the caller keeps its old list and its used CIDRs. */
  method RefreshAllocationList(api: ApiServer, pool: string, items: seq<Subnet>, used: set<Cidr>)
    returns (items': seq<Subnet>, used': set<Cidr>)
    modifies api`subnets, api`pools, api`script
    ensures api.script == Rest(old(api.script)) && api.subnets == NextStore(old(api.subnets), old(api.script))
    ensures api.pools == NextPools(old(api.pools), old(api.script))
    ensures if NextFails(old(api.script)) then items' == items && used' == used
            else ViewOf(items') == PoolSubnets(api.subnets, pool) && used' == used + CidrsOf(ViewOf(items'))
  {
    items', used' := items, used;
    var ok, current := api.List(pool);
    if ok {
      items' := current;
      used' := AddUsed(used, current);
    }
  }

  method Select(claim: ClaimSpec, pool: Pool, used: set<Cidr>, items: seq<Subnet>)
    returns (r: Outcome)
    ensures exists order :: Lists(order, used) && r == SelectCandidate(claim, pool, order, ViewOf(items))
  {
    if claim.requested.Some? {
      ghost var order := SomeOrder(used);
      r := ValidateRequestedCIDR(claim.requested.value, pool.cidr, ViewOf(items));
    } else {
      var size := BlockSizeOf(claim, pool);
      var found := FindAvailableCIDR(pool.cidr, size, used);
      match found {
        case Ok(c) => r := Allocated(c);
        case Err(e) => r := Refused(SelectionError(e, size));
      }
    }
  }

  /** What the server holds, and what is going to happen to it. */
  datatype Server = Server(subnets: Store, pools: map<string, Pool>, script: seq<Disturbance>)

  /** The server when it answers its next request. */
  function Served(s: Server): Server {
    Server(NextStore(s.subnets, s.script), NextPools(s.pools, s.script), Rest(s.script))
  }

  /** What comes of the attempt to create the Subnet of `c`: the request fails; the Subnet is created; or its name is
      taken, and then its owner is read, which decides between success and conflict. */
  predicate CreateOutcome(
    sha1: Sha1, before: Server, claim: ClaimSpec, c: Cidr, after: Server, r: Outcome, created: bool)
  {
    var name, first, second := NameFor(sha1, claim, c), Served(before), Served(Served(before));
    if NextFails(before.script) then
      !created && r == Refused(PlainError("failed to create allocation")) && after == first
    else if name !in first.subnets then
      && created && r == Allocated(c)
      && after == first.(subnets := first.subnets[name := SubnetFor(claim, c)])
    else
      && !created && after == second
      && if !NextFails(first.script) && name in second.subnets && second.subnets[name].clusterID == claim.clusterID
         then r == Allocated(second.subnets[name].cidr)
         else r.Refused? && r.error.ConflictError?
  }

  /** `createAllocation`: at most one Subnet is created, and then its CIDR is returned; a name that is taken
      by another cluster, or whose owner cannot be read, is the only source of a conflict. */
  method CreateAllocation(api: ApiServer, sha1: Sha1, claim: ClaimSpec, c: Cidr)
    returns (r: Outcome, ghost created: bool)
    modifies api
    ensures api.requests == old(api.requests) + 1
    ensures api.accepted == old(api.accepted) + if created then 1 else 0
    ensures CreateOutcome(sha1, Server(old(api.subnets), old(api.pools), old(api.script)), claim, c,
                          Server(api.subnets, api.pools, api.script), r, created)
    ensures r.Refused? ==> r.error.message != ""
  {
    var name := NameFor(sha1, claim, c);
    created := false;
    var reply := api.Create(name, SubnetFor(claim, c));
    match reply {
      case Created =>
        return Allocated(c), true;
      case AlreadyExists =>
        var _, existing := api.Get(name);
        if existing.Some? && existing.value.clusterID == claim.clusterID {
          return Allocated(existing.value.cidr), false;
        }
        return Refused(ConflictError("CIDR already allocated to another cluster")), false;
      case CreateFailed =>
        return Refused(PlainError("failed to create allocation")), false;
    }
  }

  const RETRIES_EXCEEDED: AllocError := PlainError("failed to allocate CIDR after 50 retries")

  /** What one undisturbed call of `allocateCIDR` with the current list does: `pick` is the Subnet found for
      the cluster, `order` the order of the map iteration. */
  function SerialAllocate(sha1: Sha1, store: Store, claim: ClaimSpec, pool: Pool, order: seq<Cidr>, pick: Subnet)
    : (Store, Outcome)
  {
    var view := PoolSubnets(store, claim.poolRef);
    if Existing(view, claim) != {} then (store, Allocated(pick.cidr))
    else
      match SelectCandidate(claim, pool, order, view)
      case Refused(e) => (store, Refused(e))
      case Allocated(c) =>
        var name := NameFor(sha1, claim, c);
        if name !in store then (store[name := SubnetFor(claim, c)], Allocated(c))
        else if store[name].clusterID == claim.clusterID then (store, Allocated(store[name].cidr))
        else (store, Refused(RETRIES_EXCEEDED))
  }

  /** The choices `order` and `pick` are ones that the run of the program can make. */
  predicate Enabled(store: Store, claim: ClaimSpec, order: seq<Cidr>, pick: Subnet) {
    var view := PoolSubnets(store, claim.poolRef);
    && Lists(order, CidrsOf(view))
    && (Existing(view, claim) != {} ==> pick in Existing(view, claim))
  }

  /** `store'` and `r` are a result that an undisturbed call can have. */
  ghost predicate SerialResult(sha1: Sha1, store: Store, claim: ClaimSpec, pool: Pool, store': Store, r: Outcome) {
    exists order, pick :: Enabled(store, claim, order, pick)
      && (store', r) == SerialAllocate(sha1, store, claim, pool, order, pick)
  }

  /** Without a Subnet of the cluster, the result follows from the candidate. */
  lemma ByCandidate(
    sha1: Sha1, store: Store, claim: ClaimSpec, pool: Pool, order: seq<Cidr>, store': Store, r: Outcome)
    requires var view := PoolSubnets(store, claim.poolRef);
             && Existing(view, claim) == {} && Lists(order, CidrsOf(view))
             && (store', r) == SerialAllocate(sha1, store, claim, pool, order, NO_SUBNET)
    ensures SerialResult(sha1, store, claim, pool, store', r)
  {
    assert Enabled(store, claim, order, NO_SUBNET);
  }

  // ---------------------------------------------------------------- the loop as steps of the protocol

  /** Where a call stands: an allocator of the protocol, the server, and the pool as it was read last. */
  datatype Position = Position(server: Server, proc: Proc, pool: Pool)

  /** One step of the protocol, of this allocator, on the Subnets of the server. */
  function Moved(sha1: Sha1, p: Proc, server: Server, pool: Pool, e: Event): Position {
    var ctx := Context(sha1, map[p.claim.poolRef := pool]);
    var st := Step(ctx, State(server.subnets, [server.subnets], map[0 := p]), e);
    Position(server.(subnets := st.store), if 0 in st.procs then st.procs[0] else p, pool)
  }

  /** The next step of a call, with the requests that it makes: none for a candidate that is refused or after the last
      retry; one to create, and one to read the owner; and two, for pool and list, before a retry. */
  function Round(sha1: Sha1, at: Position, order: seq<Cidr>): Position {
    var p, s := at.proc, at.server;
    match p
    case Trying(claim, retry, used, view) =>
      if SelectCandidate(claim, at.pool, order, view).Refused? then
        Moved(sha1, p, s, at.pool, Attempt(0, order, false))
      else Moved(sha1, p, Served(s), at.pool, Attempt(0, order, NextFails(s.script)))
    case Checking(_, _, _, _, _) => Moved(sha1, p, Served(s), at.pool, Check(0, NextFails(s.script)))
    case Waiting(claim, retry, used, view) =>
      var read := Served(s);
      if retry + 1 >= MAX_RETRIES then Moved(sha1, p, s, at.pool, Refresh(0, false, false, 0))
      else if NextFails(s.script) || claim.poolRef !in read.pools then
        Moved(sha1, p, read, at.pool, Refresh(0, true, false, 0))
      else Moved(sha1, p, Served(read), read.pools[claim.poolRef], Refresh(0, false, NextFails(read.script), 0))
    case Done(_, _) => at
  }

  function Play(sha1: Sha1, at: Position, orders: seq<seq<Cidr>>): Position {
    if orders == [] then at
    else Round(sha1, Play(sha1, at, orders[..|orders| - 1]), orders[|orders| - 1])
  }

  lemma PlayMore(sha1: Sha1, at: Position, orders: seq<seq<Cidr>>, order: seq<Cidr>)
    ensures Play(sha1, at, orders + [order]) == Round(sha1, Play(sha1, at, orders), order)
  {
    assert (orders + [order])[..|orders|] == orders;
  }

  /** How a call begins: with a Subnet of the cluster that the list shows, if there is one. */
  function Opening(claim: ClaimSpec, view: set<Subnet>, pick: Subnet): Proc {
    if Existing(view, claim) == {} then Trying(claim, 0, CidrsOf(view), view) else Done(claim, Allocated(pick.cidr))
  }

  /** That is how an allocator of the protocol begins with a list of any age. */
  lemma OpeningIsBegin(ctx: Context, st: State, id: nat, claim: ClaimSpec, k: nat, pick: Subnet)
    requires id !in st.procs && claim.poolRef in ctx.pools && k < |st.history|
    requires var view := PoolSubnets(st.history[k], claim.poolRef);
             Existing(view, claim) != {} ==> pick in Existing(view, claim)
    ensures Step(ctx, st, Begin(id, claim, k, pick))
            == Post(st, st.store, id, Opening(claim, PoolSubnets(st.history[k], claim.poolRef), pick))
  {}

  /** A call with this list, from the server `before`, plays as steps of the protocol and ends with `r` and the server
      `after`. */
  ghost predicate PlaysTo(
    sha1: Sha1, before: Server, claim: ClaimSpec, view: set<Subnet>, pool: Pool, after: Server, r: Outcome)
  {
    exists pick, orders ::
      && (Existing(view, claim) != {} ==> pick in Existing(view, claim))
      && Ends(Play(sha1, Position(before, Opening(claim, view, pick), pool), orders), claim, after, r)
  }

  predicate Ends(at: Position, claim: ClaimSpec, after: Server, r: Outcome) {
    at.proc == Done(claim, r) && at.server == after
  }

  lemma PlayedTo(
    sha1: Sha1, before: Server, claim: ClaimSpec, view: set<Subnet>, pick: Subnet, pool: Pool,
    orders: seq<seq<Cidr>>, after: Server, r: Outcome)
    requires Existing(view, claim) != {} ==> pick in Existing(view, claim)
    requires Ends(Play(sha1, Position(before, Opening(claim, view, pick), pool), orders), claim, after, r)
    ensures PlaysTo(sha1, before, claim, view, pool, after, r)
  {}

  /** No candidate. */
  lemma RoundRefused(sha1: Sha1, at: Position, order: seq<Cidr>, e: AllocError)
    requires at.proc.Trying? && Lists(order, at.proc.used)
    requires SelectCandidate(at.proc.claim, at.pool, order, at.proc.view) == Refused(e)
    ensures Ends(Round(sha1, at, order), at.proc.claim, at.server, Refused(e))
  {}

  /** A candidate is created, or its name is found taken. */
  lemma RoundCreate(sha1: Sha1, at: Position, order: seq<Cidr>, c: Cidr)
    requires at.proc.Trying? && Lists(order, at.proc.used)
    requires SelectCandidate(at.proc.claim, at.pool, order, at.proc.view) == Allocated(c)
    ensures var p, s, s' := at.proc, at.server, Served(at.server);
            var name, at' := NameFor(sha1, p.claim, c), Round(sha1, at, order);
            if NextFails(s.script) then
              Ends(at', p.claim, s', Refused(PlainError("failed to create allocation")))
            else if name in s'.subnets then
              at' == Position(s', Checking(p.claim, p.retry, p.used + {c}, p.view, c), at.pool)
            else
              Ends(at', p.claim, s'.(subnets := s'.subnets[name := SubnetFor(p.claim, c)]), Allocated(c))
  {
    var p, s' := at.proc, Served(at.server);
    var ctx, st := Context(sha1, map[p.claim.poolRef := at.pool]), State(s'.subnets, [s'.subnets], map[0 := p]);
    assert ctx.pools[p.claim.poolRef] == at.pool && st.procs[0] == p;
    if NextFails(at.server.script) {
      AttemptFails(ctx, st, 0, p, order, c);
    } else {
      AttemptMakes(ctx, st, 0, p, order, c);
    }
  }

  lemma AttemptFails(ctx: Context, st: State, id: nat, p: Proc, order: seq<Cidr>, c: Cidr)
    requires id in st.procs && st.procs[id] == p && p.Trying? && p.claim.poolRef in ctx.pools && Lists(order, p.used)
    requires SelectCandidate(p.claim, ctx.pools[p.claim.poolRef], order, p.view) == Allocated(c)
    ensures Step(ctx, st, Attempt(id, order, true))
            == Post(st, st.store, id, Done(p.claim, Refused(PlainError("failed to create allocation"))))
  {}

  /** The owner of the name is read. */
  lemma RoundCheck(sha1: Sha1, at: Position, order: seq<Cidr>)
    requires at.proc.Checking?
    ensures var p, s' := at.proc, Served(at.server);
            var name, at' := NameFor(sha1, p.claim, p.candidate), Round(sha1, at, order);
            if !NextFails(at.server.script) && name in s'.subnets
               && s'.subnets[name].clusterID == p.claim.clusterID then
              Ends(at', p.claim, s', Allocated(s'.subnets[name].cidr))
            else
              at' == Position(s', Waiting(p.claim, p.retry, p.used - {p.candidate}, p.view), at.pool)
  {}

  /** The rounds of one attempt to create: one, or two if the name is taken. */
  lemma CreateRounds(
    sha1: Sha1, at: Position, order: seq<Cidr>, c: Cidr, after: Server, r: Outcome, created: bool)
    returns (more: seq<seq<Cidr>>, at': Position)
    requires at.proc.Trying? && Lists(order, at.proc.used)
    requires SelectCandidate(at.proc.claim, at.pool, order, at.proc.view) == Allocated(c)
    requires CreateOutcome(sha1, at.server, at.proc.claim, c, after, r, created)
    ensures at' == Play(sha1, at, more)
    ensures if r.Refused? && r.error.ConflictError?
            then
              var p := at.proc;
              at' == Position(after, Waiting(p.claim, p.retry, p.used + {c} - {c}, p.view), at.pool)
            else Ends(at', at.proc.claim, after, r)
  {
    RoundCreate(sha1, at, order, c);
    PlayMore(sha1, at, [], order);
    assert [] + [order] == [order] && Play(sha1, at, []) == at;
    at', more := Round(sha1, at, order), [order];
    if at'.proc.Checking? {
      RoundCheck(sha1, at', []);
      PlayMore(sha1, at, more, []);
      at', more := Round(sha1, at', []), more + [[]];
    }
  }

  lemma {:induction false} PlayInSteps(sha1: Sha1, at: Position, first: seq<seq<Cidr>>, second: seq<seq<Cidr>>)
    ensures Play(sha1, at, first + second) == Play(sha1, Play(sha1, at, first), second)
    decreases |second|
  {
    if second == [] {
      assert first + second == first;
    } else {
      var init, order := LastApart(first, second);
      PlayInSteps(sha1, at, first, init);
      PlayMore(sha1, at, first + init, order);
      PlayMore(sha1, Play(sha1, at, first), init, order);
    }
  }

  /** The call gives up, or cannot read the pool, or reads pool and list again. */
  lemma RoundAgain(sha1: Sha1, at: Position, order: seq<Cidr>)
    requires at.proc.Waiting?
    ensures var p, s, read := at.proc, at.server, Served(at.server);
            var at', last, pool := Round(sha1, at, order), Served(read), p.claim.poolRef;
            if p.retry + 1 >= MAX_RETRIES then Ends(at', p.claim, s, Refused(RETRIES_EXCEEDED))
            else if NextFails(s.script) || pool !in read.pools then
              Ends(at', p.claim, read, Refused(PlainError("failed to get latest pool state")))
            else if NextFails(read.script) then
              at' == Position(last, Trying(p.claim, p.retry + 1, p.used, p.view), read.pools[pool])
            else
              var view := PoolSubnets(last.subnets, pool);
              at' == Position(last, Trying(p.claim, p.retry + 1, p.used + CidrsOf(view), view), read.pools[pool])
  {}

  /** Nothing disturbs the server, and the caller has its current pool and list. */
  ghost predicate Quiet(
    store: Store, pools: map<string, Pool>, script: seq<Disturbance>,
    claim: ClaimSpec, pool: Pool, existing: seq<Subnet>)
  {
    && script == [] && claim.poolRef in pools && pools[claim.poolRef] == pool
    && ViewOf(existing) == PoolSubnets(store, claim.poolRef)
    && PairwiseDisjoint(CidrsOf(ViewOf(existing)))
  }

  /** A position that an undisturbed call with the current list can reach. */
  ghost predicate QuietAt(
    sha1: Sha1, start: Server, claim: ClaimSpec, view: set<Subnet>, pool: Pool, at: Position)
  {
    && at.pool == pool && at.server == start.(subnets := at.server.subnets) && at.proc.claim == claim
    && match at.proc
       case Trying(_, _, used, v) => at.server == start && used == CidrsOf(view) && v == view
       case Checking(_, _, used, v, c) =>
         && at.server == start && used == CidrsOf(view) + {c} && v == view && NameFor(sha1, claim, c) in start.subnets
         && exists order :: Lists(order, CidrsOf(view)) && SelectCandidate(claim, pool, order, view) == Allocated(c)
       case Waiting(_, _, used, v) =>
         at.server == start && used == CidrsOf(view) && v == view && Stuck(sha1, start.subnets, claim, pool, view)
       case Done(_, r) => SerialResult(sha1, start.subnets, claim, pool, at.server.subnets, r)
  }

  /** The server is not disturbed, and the list is current, disjoint, and without the cluster. */
  ghost predicate QuietStart(start: Server, claim: ClaimSpec, view: set<Subnet>, pool: Pool) {
    && start.script == [] && claim.poolRef in start.pools && start.pools[claim.poolRef] == pool
    && view == PoolSubnets(start.subnets, claim.poolRef) && PairwiseDisjoint(CidrsOf(view))
    && Existing(view, claim) == {}
  }

  lemma QuietTrying(
    sha1: Sha1, start: Server, claim: ClaimSpec, view: set<Subnet>, pool: Pool, at: Position, order: seq<Cidr>)
    requires QuietStart(start, claim, view, pool) && QuietAt(sha1, start, claim, view, pool, at) && at.proc.Trying?
    requires Lists(order, at.proc.used)
    ensures QuietAt(sha1, start, claim, view, pool, Round(sha1, at, order))
  {
    var r := SelectCandidate(claim, pool, order, view);
    if r.Refused? {
      RoundRefused(sha1, at, order, r.error);
      ByCandidate(sha1, start.subnets, claim, pool, order, start.subnets, r);
    } else {
      RoundCreate(sha1, at, order, r.cidr);
      var name := NameFor(sha1, claim, r.cidr);
      if name !in start.subnets {
        ByCandidate(sha1, start.subnets, claim, pool, order,
                    start.subnets[name := SubnetFor(claim, r.cidr)], r);
      }
    }
  }

  lemma QuietChecking(
    sha1: Sha1, start: Server, claim: ClaimSpec, view: set<Subnet>, pool: Pool, at: Position, order: seq<Cidr>)
    requires QuietStart(start, claim, view, pool) && QuietAt(sha1, start, claim, view, pool, at) && at.proc.Checking?
    ensures QuietAt(sha1, start, claim, view, pool, Round(sha1, at, order))
  {
    var c := at.proc.candidate;
    RoundCheck(sha1, at, order);
    var o :| Lists(o, CidrsOf(view)) && SelectCandidate(claim, pool, o, view) == Allocated(c);
    var owner := start.subnets[NameFor(sha1, claim, c)];
    if owner.clusterID == claim.clusterID {
      ByCandidate(sha1, start.subnets, claim, pool, o, start.subnets, Allocated(owner.cidr));
    } else {
      StuckHere(sha1, start.subnets, claim, pool, view, o, c);
    }
  }

  lemma QuietWaiting(
    sha1: Sha1, start: Server, claim: ClaimSpec, view: set<Subnet>, pool: Pool, at: Position, order: seq<Cidr>)
    requires QuietStart(start, claim, view, pool) && QuietAt(sha1, start, claim, view, pool, at) && at.proc.Waiting?
    ensures QuietAt(sha1, start, claim, view, pool, Round(sha1, at, order))
  {
    RoundAgain(sha1, at, order);
    assert CidrsOf(view) + CidrsOf(view) == CidrsOf(view);
    var o :| Lists(o, CidrsOf(view)) && Collides(sha1, start.subnets, claim, pool, view, o);
    ByCandidate(sha1, start.subnets, claim, pool, o, start.subnets, Refused(RETRIES_EXCEEDED));
  }

  lemma {:induction false} QuietPlay(
    sha1: Sha1, start: Server, claim: ClaimSpec, view: set<Subnet>, pool: Pool, at: Position, orders: seq<seq<Cidr>>)
    requires QuietStart(start, claim, view, pool) && QuietAt(sha1, start, claim, view, pool, at)
    ensures QuietAt(sha1, start, claim, view, pool, Play(sha1, at, orders))
  {
    if orders != [] {
      var init, order := orders[..|orders| - 1], orders[|orders| - 1];
      QuietPlay(sha1, start, claim, view, pool, at, init);
      var at' := Play(sha1, at, init);
      match at'.proc
      case Trying(_, _, used, _) =>
        if Lists(order, used) { QuietTrying(sha1, start, claim, view, pool, at', order); }
        else { RoundIdle(sha1, at', order); }
      case Checking(_, _, _, _, _) => QuietChecking(sha1, start, claim, view, pool, at', order);
      case Waiting(_, _, _, _) => QuietWaiting(sha1, start, claim, view, pool, at', order);
      case Done(_, _) =>
    }
  }

  /** An order that does not list the used CIDRs changes nothing. */
  lemma RoundIdle(sha1: Sha1, at: Position, order: seq<Cidr>)
    requires at.proc.Trying? && !Lists(order, at.proc.used) && at.server.script == []
    ensures Round(sha1, at, order) == at
  {}

  /** An undisturbed call with the current list is `SerialAllocate`. */
  lemma QuietCall(
    sha1: Sha1, start: Server, claim: ClaimSpec, view: set<Subnet>, pool: Pool, after: Server, r: Outcome)
    requires PlaysTo(sha1, start, claim, view, pool, after, r)
    requires start.script == [] && claim.poolRef in start.pools && start.pools[claim.poolRef] == pool
    requires view == PoolSubnets(start.subnets, claim.poolRef) && PairwiseDisjoint(CidrsOf(view))
    ensures SerialResult(sha1, start.subnets, claim, pool, after.subnets, r)
  {
    var pick, orders :|
      && (Existing(view, claim) != {} ==> pick in Existing(view, claim))
      && Ends(Play(sha1, Position(start, Opening(claim, view, pick), pool), orders), claim, after, r);
    var at := Position(start, Opening(claim, view, pick), pool);
    if Existing(view, claim) == {} {
      QuietPlay(sha1, start, claim, view, pool, at, orders);
    } else {
      DoneStays(sha1, at, orders);
      var order := SomeOrder(CidrsOf(view));
      assert Enabled(start.subnets, claim, order, pick);
    }
  }

  lemma {:induction false} DoneStays(sha1: Sha1, at: Position, orders: seq<seq<Cidr>>)
    requires at.proc.Done?
    ensures Play(sha1, at, orders) == at
  {
    if orders != [] { DoneStays(sha1, at, orders[..|orders| - 1]); }
  }

  /** `allocateCIDR`. For every behaviour of the server the call plays as steps of the protocol, with the same outcome
      and the same Subnets. There are at most fifty create requests; at most one of them succeeds, it ends the call with
      success, and the error that is returned is never a conflict. Without disturbance the call is `SerialAllocate`. */
  method AllocateCIDR(api: ApiServer, sha1: Sha1, claim: ClaimSpec, pool: Pool, existing: seq<Subnet>)
    returns (r: Outcome)
    modifies api
    ensures PlaysTo(sha1, Server(old(api.subnets), old(api.pools), old(api.script)), claim, ViewOf(existing), pool,
                    Server(api.subnets, api.pools, api.script), r)
    ensures api.requests <= old(api.requests) + 50
    ensures api.accepted == old(api.accepted) || (api.accepted == old(api.accepted) + 1 && r.Allocated?)
    ensures r.Refused? ==> !r.error.ConflictError? && r.error.message != ""
    ensures Quiet(old(api.subnets), old(api.pools), old(api.script), claim, pool, existing) ==>
              SerialResult(sha1, old(api.subnets), claim, pool, api.subnets, r)
  {
    ghost var start := Server(api.subnets, api.pools, api.script);
    r := Allocate(api, sha1, claim, pool, existing);
    if Quiet(start.subnets, start.pools, start.script, claim, pool, existing) {
      QuietCall(sha1, start, claim, ViewOf(existing), pool, Server(api.subnets, api.pools, api.script), r);
    }
  }

  predicate IsConflict(r: Outcome) {
    r.Refused? && r.error.ConflictError?
  }

  /** What precedes a retry: the pool and the list are read again. */
  method ReadAgain(
    api: ApiServer, sha1: Sha1, claim: ClaimSpec, used: set<Cidr>, items: seq<Subnet>, ghost at: Position)
    returns (pool: Option<Pool>, used': set<Cidr>, items': seq<Subnet>)
    requires at.server == Server(api.subnets, api.pools, api.script)
    requires at.proc.Waiting? && at.proc == Waiting(claim, at.proc.retry, used, ViewOf(items))
    requires at.proc.retry + 1 < MAX_RETRIES
    modifies api`subnets, api`pools, api`script
    ensures var server, at' := Server(api.subnets, api.pools, api.script), Round(sha1, at, []);
            if pool.None? then Ends(at', claim, server, Refused(PlainError("failed to get latest pool state")))
            else at' == Position(server, Trying(claim, at.proc.retry + 1, used', ViewOf(items')), pool.value)
  {
    RoundAgain(sha1, at, []);
    used', items' := used, items;
    var _, read := api.GetPool(claim.poolRef);
    if read.Some? { items', used' := RefreshAllocationList(api, claim.poolRef, items, used); }
    pool := read;
  }

  /** One attempt: select a candidate, reserve it, create its Subnet, and roll the reservation back on an error. */
  method TryOnce(
    api: ApiServer, sha1: Sha1, claim: ClaimSpec, pool: Pool, used: set<Cidr>, items: seq<Subnet>, ghost at: Position)
    returns (r: Outcome, used': set<Cidr>, ghost more: seq<seq<Cidr>>, ghost at': Position)
    requires at.server == Server(api.subnets, api.pools, api.script) && at.pool == pool
    requires at.proc.Trying? && at.proc == Trying(claim, at.proc.retry, used, ViewOf(items))
    modifies api
    ensures at' == Play(sha1, at, more)
    ensures var server := Server(api.subnets, api.pools, api.script);
            if IsConflict(r) then at' == Position(server, Waiting(claim, at.proc.retry, used', ViewOf(items)), pool)
            else Ends(at', claim, server, r)
    ensures api.requests <= old(api.requests) + 1 && (IsConflict(r) ==> api.requests == old(api.requests) + 1)
    ensures api.accepted == old(api.accepted) || (api.accepted == old(api.accepted) + 1 && r.Allocated?)
    ensures r.Refused? ==> r.error.message != ""
  {
    used' := used;
    var candidate := Select(claim, pool, used, items);
    ghost var order :| Lists(order, used) && candidate == SelectCandidate(claim, pool, order, ViewOf(items));
    CandidateShape(claim, pool, order, ViewOf(items));
    if candidate.Refused? {
      RoundRefused(sha1, at, order, candidate.error);
      more, at' := [order], Round(sha1, at, order);
      PlayMore(sha1, at, [], order);
      assert [] + [order] == [order];
      return candidate, used', more, at';
    }
    var c := candidate.cidr;
    used' := used' + {c};
    ghost var created;
    r, created := CreateAllocation(api, sha1, claim, c);
    more, at' := CreateRounds(sha1, at, order, c, Server(api.subnets, api.pools, api.script), r, created);
    if r.Refused? { used' := used' - {c}; }
  }

  /** The loop itself. */
  method Allocate(api: ApiServer, sha1: Sha1, claim: ClaimSpec, pool: Pool, existing: seq<Subnet>)
    returns (r: Outcome)
    modifies api
    ensures PlaysTo(sha1, Server(old(api.subnets), old(api.pools), old(api.script)), claim, ViewOf(existing), pool,
                    Server(api.subnets, api.pools, api.script), r)
    ensures api.requests <= old(api.requests) + 50
    ensures api.accepted == old(api.accepted) || (api.accepted == old(api.accepted) + 1 && r.Allocated?)
    ensures r.Refused? ==> !r.error.ConflictError? && r.error.message != ""
  {
    ghost var start, view := Server(api.subnets, api.pools, api.script), ViewOf(existing);
    var found := FindExisting(existing, claim);
    if found.Some? {
      PlayedTo(sha1, start, claim, view, found.value, pool, [], start, Allocated(found.value.cidr));
      return Allocated(found.value.cidr);
    }
    var used := AddUsed({}, existing);
    var items, latest := existing, pool;
    ghost var at0 := Position(start, Opening(claim, view, NO_SUBNET), pool);
    ghost var at, orders := at0, [];
    for retry := 0 to MAX_RETRIES
      invariant api.requests == old(api.requests) + retry && api.accepted == old(api.accepted)
      invariant at == Play(sha1, at0, orders)
      invariant at == Position(Server(api.subnets, api.pools, api.script), at.proc, latest)
      invariant at.proc == if retry == 0 then Trying(claim, 0, used, ViewOf(items))
                           else Waiting(claim, retry - 1, used, ViewOf(items))
    {
      if retry > 0 {
        var read;
        read, used, items := ReadAgain(api, sha1, claim, used, items, at);
        PlayMore(sha1, at0, orders, []);
        at, orders := Round(sha1, at, []), orders + [[]];
        if read.None? {
          r := Refused(PlainError("failed to get latest pool state"));
          PlayedTo(sha1, start, claim, view, NO_SUBNET, pool, orders, at.server, r);
          return;
        }
        latest := read.value;
      }
      ghost var more, at';
      r, used, more, at' := TryOnce(api, sha1, claim, latest, used, items, at);
      PlayInSteps(sha1, at0, orders, more);
      at, orders := at', orders + more;
      if !IsConflict(r) {
        PlayedTo(sha1, start, claim, view, NO_SUBNET, pool, orders, at.server, r);
        return;
      }
    }
    RoundAgain(sha1, at, []);
    PlayMore(sha1, at0, orders, []);
    PlayedTo(sha1, start, claim, view, NO_SUBNET, pool, orders + [[]], at.server, Refused(RETRIES_EXCEEDED));
    return Refused(RETRIES_EXCEEDED);
  }

  predicate Collides(sha1: Sha1, store: Store, claim: ClaimSpec, pool: Pool, view: set<Subnet>, order: seq<Cidr>) {
    var r := SelectCandidate(claim, pool, order, view);
    && r.Allocated? && NameFor(sha1, claim, r.cidr) in store
    && store[NameFor(sha1, claim, r.cidr)].clusterID != claim.clusterID
  }

  ghost predicate Stuck(sha1: Sha1, store: Store, claim: ClaimSpec, pool: Pool, view: set<Subnet>) {
    exists order :: Lists(order, CidrsOf(view)) && Collides(sha1, store, claim, pool, view, order)
  }

  lemma StuckHere(
    sha1: Sha1, store: Store, claim: ClaimSpec, pool: Pool, view: set<Subnet>, order: seq<Cidr>, c: Cidr)
    requires Lists(order, CidrsOf(view)) && PairwiseDisjoint(CidrsOf(view))
    requires SelectCandidate(claim, pool, order, view) == Allocated(c)
    requires Collides(sha1, store, claim, pool, view, order)
    ensures Stuck(sha1, store, claim, pool, view) && CidrsOf(view) + {c} - {c} == CidrsOf(view)
  {
    if pool.cidr.V4? { DisjointIsTiled(Mask(pool.cidr), CidrsOf(view)); }
    CandidateUnused(claim, pool, CidrsOf(view), order, view);
  }
}
