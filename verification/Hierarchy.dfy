/** Pool splitting: a SubnetPoolClaim obtains a CIDR of its parent pool through an internal SubnetClaim and
    turns it into a child SubnetPool. */
module Hierarchy {
  import opened Cidrs
  import opened Bitmap
  import opened MarkOrder
  import opened Allocator
  import opened Names
  import opened Protocol
  import opened Claims
  import opened SerialRuns

  datatype PoolClaim = PoolClaim(
    uid: string, parent: string, size: nat, generation: nat,
    phase: Phase, observed: nat, boundPool: string, message: string)

  /** The objects of a namespace; `claimOwner` and `poolOwner` are the controller references, by owner UID, and
      `parentLabel` is the label of a child pool that names its parent. */
  datatype Tree = Tree(
    world: World, poolClaims: map<string, PoolClaim>,
    claimOwner: map<string, string>, poolOwner: map<string, string>, parentLabel: map<string, string>)

  function Owned(owner: map<string, string>, uid: string): set<string> {
    set n | n in owner && owner[n] == uid
  }

  /** What can go wrong in a reconciliation: the status update fails; the list of claims, or that of pools, lags behind
      and does not show the owned objects yet. */
  datatype Faults = Faults(statusLost: bool, lateClaims: bool, latePools: bool)

  const NO_FAULTS: Faults := Faults(false, false, false)

  /** `claimPick` and `poolPick` are the first owned objects in the lists; `newName` is the name the server generates
      for a new object. */
  datatype Move =
    | User(action: Action)
    | AddPoolClaim(name: string, uid: string, parent: string, size: nat)
    | EditPoolClaim(name: string, parent: string, size: nat)
    | ReconcilePoolClaim(name: string, claimPick: string, poolPick: string, newName: string, faults: Faults)

  // ---------------------------------------------------------------- specification of the reconciler

  function InternalSpec(pc: PoolClaim): ClaimSpec {
    ClaimSpec(pc.parent, pc.uid, pc.size, None)
  }

  function CreateInternalClaim(t: Tree, pc: PoolClaim, newName: string): Tree {
    var w := t.world;
    if newName in w.claims then t
    else t.(world := w.(claims := w.claims[newName := Claim(InternalSpec(pc), 1, NEW_STATUS)]),
            claimOwner := t.claimOwner[newName := pc.uid])
  }

  function CreateChildPool(t: Tree, pc: PoolClaim, newName: string, cidr: Cidr): Tree {
    t.(world := t.world.(pools := t.world.pools[newName := Pool(cidr, 0, 0, 0)]),
       poolOwner := t.poolOwner[newName := pc.uid], parentLabel := t.parentLabel[newName := pc.parent])
  }

  function SetStatus(t: Tree, name: string, phase: Phase, boundPool: string, message: string): Tree
    requires name in t.poolClaims
  {
    var pc := t.poolClaims[name];
    t.(poolClaims := t.poolClaims[name :=
      pc.(observed := pc.generation, phase := phase, boundPool := boundPool, message := message)])
  }

  function BoundStep(t: Tree, name: string, cidr: Cidr, pick: string, newName: string, faults: Faults): Tree
    requires name in t.poolClaims
  {
    var owned := Owned(t.poolOwner, t.poolClaims[name].uid);
    if owned != {} && !faults.latePools then
      if pick !in owned || faults.statusLost then t else SetStatus(t, name, Bound, pick, "")
    else if newName in t.world.pools then t
    else
      var t' := CreateChildPool(t, t.poolClaims[name], newName, cidr);
      if faults.statusLost then t' else SetStatus(t', name, Bound, newName, "")
  }

  function PendingStep(
    t: Tree, name: string, claimPick: string, poolPick: string, newName: string, faults: Faults): Tree
    requires name in t.poolClaims
  {
    var owned := Owned(t.claimOwner, t.poolClaims[name].uid);
    if owned == {} || faults.lateClaims then CreateInternalClaim(t, t.poolClaims[name], newName)
    else if claimPick !in owned || claimPick !in t.world.claims then t
    else
      var status := t.world.claims[claimPick].status;
      match status.phase
      case Bound =>
        if status.cidr.None? then t else BoundStep(t, name, status.cidr.value, poolPick, newName, faults)
      case Error => if faults.statusLost then t else SetStatus(t, name, Error, "", status.message)
      case _ => t
  }

  /** Whether `Reconcile` goes on to the pending step. */
  predicate Due(pc: PoolClaim) {
    pc.phase == Unset || pc.phase == Pending || (pc.phase == Error && pc.observed != pc.generation)
  }

  /** A move on the pool claims. */
  function PoolClaimTurn(t: Tree, m: Move): Tree
    requires !m.User?
  {
    match m
    case AddPoolClaim(name, uid, parent, size) =>
      if name in t.poolClaims then t
      else t.(poolClaims := t.poolClaims[name := PoolClaim(uid, parent, size, 1, Unset, 0, "", "")])
    case EditPoolClaim(name, parent, size) =>
      if name !in t.poolClaims then t
      else
        var pc := t.poolClaims[name];
        t.(poolClaims := t.poolClaims[name := pc.(parent := parent, size := size, generation := pc.generation + 1)])
    case ReconcilePoolClaim(name, claimPick, poolPick, newName, faults) =>
      if name !in t.poolClaims || !Due(t.poolClaims[name]) then t
      else PendingStep(t, name, claimPick, poolPick, newName, faults)
  }

  function Turn(sha1: Sha1, t: Tree, m: Move): Tree {
    if m.User? then t.(world := Act(sha1, t.world, m.action)) else PoolClaimTurn(t, m)
  }

  function Turns(sha1: Sha1, t: Tree, moves: seq<Move>): Tree {
    if moves == [] then t else Turn(sha1, Turns(sha1, t, moves[..|moves| - 1]), moves[|moves| - 1])
  }

  const BARE: Tree := Tree(START, map[], map[], map[], map[])

  // ---------------------------------------------------------------- the invariant

  /** The text after the last dash has twelve characters. */
  predicate IsUuid(id: string) {
    |id| >= 13 && id[|id| - 13] == '-' && DashFree(id[|id| - 12..])
  }

  lemma UuidNotEncoded(sha1: Sha1, id: string)
    requires IsUuid(id)
    ensures NotEncoded(sha1, id)
  {
    var n := |id| - 13;
    assert id == id[..n] + "-" + id[n + 1..];
    forall p, c: Cidr | c.V4? ensures id != EncodeAllocationName(sha1, p, c) {
      UuidNeverEncoded(sha1, p, c, id[..n], id[n + 1..]);
    }
  }

  predicate Injective(owner: map<string, string>) {
    forall a, b :: a in owner && b in owner && a != b ==> owner[a] != owner[b]
  }

  ghost predicate PoolClaimsOk(poolClaims: map<string, PoolClaim>) {
    && (forall k :: k in poolClaims ==> IsUuid(poolClaims[k].uid))
    && (forall k, l :: k in poolClaims && l in poolClaims && k != l ==> poolClaims[k].uid != poolClaims[l].uid)
  }

  /** What a run has done so far: the spec that each Bound claim was bound with, and the spec of the binding whose
      CIDR each child pool was given. */
  datatype History = History(bound: map<string, ClaimSpec>, carved: map<string, ClaimSpec>)

  function Advance(h: History, t: Tree, m: Move, t': Tree): History {
    History(Record(t.world, t'.world, h.bound),
            if m.ReconcilePoolClaim? && m.newName in t'.poolOwner && m.newName !in t.poolOwner && m.claimPick in h.bound
            then h.carved[m.newName := h.bound[m.claimPick]] else h.carved)
  }

  function Chronicle(sha1: Sha1, moves: seq<Move>): History {
    if moves == [] then History(map[], map[])
    else
      var init, m := moves[..|moves| - 1], moves[|moves| - 1];
      var t := Turns(sha1, BARE, init);
      Advance(Chronicle(sha1, init), t, m, Turn(sha1, t, m))
  }

  /** The CIDR of the child pool is that of the Subnet it was carved from. */
  ghost predicate ChildOk(t: Tree, h: History, p: string) {
    && p in t.world.pools && p in t.parentLabel && p in h.carved
    && HeldBy(t.world.store, h.carved[p], t.world.pools[p].cidr)
  }

  ghost predicate OwnersOk(t: Tree, h: History) {
    && (forall c :: c in t.claimOwner ==> c in t.world.claims)
    && (forall p :: p in t.poolOwner ==> ChildOk(t, h, p))
    && Injective(t.poolOwner)
  }

  ghost predicate TreeInv(sha1: Sha1, t: Tree, h: History) {
    && SettledInv(sha1, t.world) && AllHeld(t.world, h.bound)
    && PoolClaimsOk(t.poolClaims) && OwnersOk(t, h)
  }

  /** The user leaves internal claims in place, and child pools with their CIDRs. */
  predicate Spares(t: Tree, a: Action) {
    && (a.DeleteClaim? ==> a.name !in t.claimOwner)
    && (a.DeletePool? ==> a.name !in t.poolOwner)
    && (a.SetPool? && a.name in t.poolOwner && a.name in t.world.pools ==> a.pool.cidr == t.world.pools[a.name].cidr)
  }

  /** Deletion-free moves; UIDs are fresh UUIDs, names stay distinct, and lists of pools are current. Claims and pool
      claims are edited at will. */
  ghost predicate Legal(sha1: Sha1, t: Tree, m: Move) {
    match m
    case User(a) => Settled(sha1, t.world, a) && Spares(t, a)
    case AddPoolClaim(name, uid, parent, size) =>
      IsUuid(uid) && forall k :: k in t.poolClaims ==> t.poolClaims[k].uid != uid
    case EditPoolClaim(name, parent, size) => true
    case ReconcilePoolClaim(name, claimPick, poolPick, newName, faults) =>
      !faults.latePools && NamesDistinct(sha1, PoolClaimTurn(t, m).world.pools)
  }

  ghost predicate AllLegal(sha1: Sha1, t: Tree, moves: seq<Move>) {
    forall i :: 0 <= i < |moves| ==> Legal(sha1, Turns(sha1, t, moves[..i]), moves[i])
  }

  // ---------------------------------------------------------------- what a move on the pool claims does

  /** Nothing but pool claims has changed. */
  predicate Still(t: Tree, t': Tree) {
    t' == t.(poolClaims := t'.poolClaims)
  }

  /** The pool claim has got the internal claim `n`. */
  predicate NewClaim(t: Tree, t': Tree, name: string, n: string) {
    && name in t.poolClaims && n !in t.world.claims
    && t' == CreateInternalClaim(t, t.poolClaims[name], n)
  }

  /** The pool claim has got the child pool `n`, with the CIDR of its internal claim `c`. */
  predicate NewPool(t: Tree, t': Tree, name: string, c: string, n: string) {
    && name in t.poolClaims && c in Owned(t.claimOwner, t.poolClaims[name].uid) && c in t.world.claims
    && IsBound(t.world.claims[c]) && n !in t.world.pools
    && t' == CreateChildPool(t, t.poolClaims[name], n, t.world.claims[c].status.cidr.value)
             .(poolClaims := t'.poolClaims)
  }

  lemma BoundShape(t: Tree, name: string, c: string, poolPick: string, newName: string, faults: Faults)
    requires name in t.poolClaims && c in Owned(t.claimOwner, t.poolClaims[name].uid) && c in t.world.claims
    requires IsBound(t.world.claims[c])
    ensures var t' := BoundStep(t, name, t.world.claims[c].status.cidr.value, poolPick, newName, faults);
            || Still(t, t')
            || (NewPool(t, t', name, c, newName)
                && (Owned(t.poolOwner, t.poolClaims[name].uid) == {} || faults.latePools))
  {}

  predicate Shaped(t: Tree, m: Move, t': Tree) {
    || Still(t, t')
    || (m.ReconcilePoolClaim? && NewClaim(t, t', m.name, m.newName)
        && (Owned(t.claimOwner, t.poolClaims[m.name].uid) == {} || m.faults.lateClaims))
    || (m.ReconcilePoolClaim? && NewPool(t, t', m.name, m.claimPick, m.newName)
        && (Owned(t.poolOwner, t.poolClaims[m.name].uid) == {} || m.faults.latePools))
  }

  /** A move on the pool claims changes pool claims only, or adds one internal claim, or adds one child pool, the latter
      two only to an owner that has none, unless the list lags. */
  lemma TurnShape(t: Tree, m: Move)
    requires !m.User?
    ensures Shaped(t, m, PoolClaimTurn(t, m))
  {
    if m.ReconcilePoolClaim? && m.name in t.poolClaims && m.claimPick in t.world.claims
       && m.claimPick in Owned(t.claimOwner, t.poolClaims[m.name].uid) && IsBound(t.world.claims[m.claimPick]) {
      BoundShape(t, m.name, m.claimPick, m.poolPick, m.newName, m.faults);
    }
  }

  lemma TurnKeepsPoolClaims(t: Tree, m: Move)
    requires !m.User? && PoolClaimsOk(t.poolClaims)
    requires m.AddPoolClaim? ==> IsUuid(m.uid) && forall k :: k in t.poolClaims ==> t.poolClaims[k].uid != m.uid
    ensures PoolClaimsOk(PoolClaimTurn(t, m).poolClaims)
    ensures forall k :: k in t.poolClaims ==>
              k in PoolClaimTurn(t, m).poolClaims && PoolClaimTurn(t, m).poolClaims[k].uid == t.poolClaims[k].uid
  {
    if m.ReconcilePoolClaim? && m.name in t.poolClaims {
      PendingKeepsPoolClaims(t, m.name, m.claimPick, m.poolPick, m.newName, m.faults);
    }
  }

  lemma PendingKeepsPoolClaims(
    t: Tree, name: string, claimPick: string, poolPick: string, newName: string, faults: Faults)
    requires name in t.poolClaims
    ensures var pcs := PendingStep(t, name, claimPick, poolPick, newName, faults).poolClaims;
            && pcs.Keys == t.poolClaims.Keys
            && forall k :: k in pcs ==> pcs[k].uid == t.poolClaims[k].uid && pcs[k].parent == t.poolClaims[k].parent
  {}

  /** Claims, Subnets and the ownership of internal claims are as they were, but for new claims of new owners. */
  ghost predicate LeavesClaims(t: Tree, t': Tree) {
    && t'.claimOwner.Keys <= t'.world.claims.Keys && t'.world.store == t.world.store
    && (forall c :: c in t.world.claims ==> c in t'.world.claims && t'.world.claims[c] == t.world.claims[c])
    && (forall uid :: Owned(t.claimOwner, uid) != {} ==> Owned(t'.claimOwner, uid) == Owned(t.claimOwner, uid))
  }

  lemma TurnLeavesClaims(t: Tree, m: Move)
    requires !m.User? && (m.ReconcilePoolClaim? ==> !m.faults.lateClaims) && t.claimOwner.Keys <= t.world.claims.Keys
    ensures LeavesClaims(t, PoolClaimTurn(t, m))
  {
    TurnShape(t, m);
    var t' := PoolClaimTurn(t, m);
    if m.ReconcilePoolClaim? && NewClaim(t, t', m.name, m.newName) {
      forall uid | Owned(t.claimOwner, uid) != {} ensures Owned(t'.claimOwner, uid) == Owned(t.claimOwner, uid) {
        assert uid != t.poolClaims[m.name].uid;
      }
    }
  }

  /** Pool claims never reach an existing internal claim: in every sequence of moves on pool claims, edits of parent and
      size included, all claims and Subnets stay exactly as they are, and a pool claim that owns an internal claim
      gets no other. */
  lemma {:induction false} EditsStayOutside(sha1: Sha1, t: Tree, moves: seq<Move>)
    requires t.claimOwner.Keys <= t.world.claims.Keys
    requires forall m :: m in moves ==> !m.User? && (m.ReconcilePoolClaim? ==> !m.faults.lateClaims)
    ensures LeavesClaims(t, Turns(sha1, t, moves))
  {
    if moves != [] {
      var n := |moves| - 1;
      EditsStayOutside(sha1, t, moves[..n]);
      TurnLeavesClaims(Turns(sha1, t, moves[..n]), moves[n]);
    }
  }

  // ---------------------------------------------------------------- preservation

  /** Every move acts on the world by one settled action, or not at all. */
  lemma TurnActs(sha1: Sha1, t: Tree, m: Move) returns (a: Option<Action>)
    requires PoolClaimsOk(t.poolClaims) && Legal(sha1, t, m)
    ensures a.None? ==> Turn(sha1, t, m).world == t.world
    ensures a.Some? ==> Turn(sha1, t, m).world == Act(sha1, t.world, a.value) && Settled(sha1, t.world, a.value)
  {
    a := None;
    if m.User? {
      a := Some(m.action);
    } else if m.ReconcilePoolClaim? {
      TurnShape(t, m);
      var t' := PoolClaimTurn(t, m);
      if NewClaim(t, t', m.name, m.newName) {
        UuidNotEncoded(sha1, t.poolClaims[m.name].uid);
        a := Some(AddClaim(m.newName, InternalSpec(t.poolClaims[m.name])));
      } else if NewPool(t, t', m.name, m.claimPick, m.newName) {
        a := Some(SetPool(m.newName, Pool(t.world.claims[m.claimPick].status.cidr.value, 0, 0, 0)));
      }
    }
  }

  lemma TurnKeepsWorld(sha1: Sha1, t: Tree, m: Move, bound: map<string, ClaimSpec>)
    requires SettledInv(sha1, t.world) && AllHeld(t.world, bound) && PoolClaimsOk(t.poolClaims) && Legal(sha1, t, m)
    ensures var w := Turn(sha1, t, m).world;
            SettledInv(sha1, w) && AllHeld(w, Record(t.world, w, bound)) && Includes(w.store, t.world.store)
  {
    var a := TurnActs(sha1, t, m);
    if a.Some? {
      ActKeepsSettled(sha1, t.world, a.value);
      ActCarries(sha1, t.world, a.value);
    } else {
      assert Carries(t.world, t.world);
    }
    CarriesHeld(t.world, Turn(sha1, t, m).world, bound);
  }

  /** What the owner tables depend on is kept. */
  ghost predicate KeepsOwned(t: Tree, h: History, t': Tree, h': History) {
    && Includes(t'.world.store, t.world.store)
    && (forall c :: c in t.claimOwner && c in t.world.claims ==> c in t'.world.claims)
    && (forall p :: p in t.poolOwner && ChildOk(t, h, p) ==>
          && p in t'.world.pools && t'.world.pools[p].cidr == t.world.pools[p].cidr
          && p in t'.parentLabel && p in h'.carved && h'.carved[p] == h.carved[p])
  }

  lemma ChildKept(t: Tree, h: History, t': Tree, h': History, p: string)
    requires p in t.poolOwner && ChildOk(t, h, p) && KeepsOwned(t, h, t', h')
    ensures ChildOk(t', h', p)
  {
    HeldGrows(t.world.store, t'.world.store, h.carved[p], t.world.pools[p].cidr);
  }

  lemma OwnersKept(t: Tree, h: History, t': Tree, h': History)
    requires OwnersOk(t, h) && KeepsOwned(t, h, t', h')
    requires t'.claimOwner == t.claimOwner && t'.poolOwner == t.poolOwner
    ensures OwnersOk(t', h')
  {
    forall p | p in t'.poolOwner ensures ChildOk(t', h', p) { ChildKept(t, h, t', h', p); }
  }

  lemma InjectiveInsert(owner: map<string, string>, n: string, uid: string)
    requires Injective(owner) && Owned(owner, uid) == {} && n !in owner
    ensures Injective(owner[n := uid])
  {
    forall a | a in owner ensures owner[a] != uid {
      assert a !in Owned(owner, uid);
    }
  }

  lemma NewClaimOwners(t: Tree, h: History, t': Tree, h': History, name: string, n: string)
    requires OwnersOk(t, h) && NewClaim(t, t', name, n) && h'.carved == h.carved
    ensures OwnersOk(t', h')
  {
    forall p | p in t'.poolOwner ensures ChildOk(t', h', p) { ChildKept(t, h, t', h', p); }
  }

  lemma NewPoolOwners(t: Tree, h: History, t': Tree, h': History, name: string, c: string, n: string)
    requires OwnersOk(t, h) && AllHeld(t.world, h.bound) && NewPool(t, t', name, c, n)
    requires Owned(t.poolOwner, t.poolClaims[name].uid) == {}
    requires c in h.bound && h'.carved == h.carved[n := h.bound[c]]
    ensures OwnersOk(t', h')
  {
    assert n !in t.poolOwner by { assert n in t.poolOwner ==> ChildOk(t, h, n); }
    InjectiveInsert(t.poolOwner, n, t.poolClaims[name].uid);
    forall p | p in t'.poolOwner ensures ChildOk(t', h', p) {
      if p != n { ChildKept(t, h, t', h', p); }
    }
  }

  lemma PoolClaimTurnOwners(t: Tree, h: History, m: Move)
    requires OwnersOk(t, h) && AllHeld(t.world, h.bound) && !m.User? && (m.ReconcilePoolClaim? ==> !m.faults.latePools)
    ensures var t' := PoolClaimTurn(t, m); OwnersOk(t', Advance(h, t, m, t'))
  {
    var t' := PoolClaimTurn(t, m);
    var h' := Advance(h, t, m, t');
    TurnShape(t, m);
    if Still(t, t') {
      OwnersKept(t, h, t', h');
    } else if m.ReconcilePoolClaim? && NewClaim(t, t', m.name, m.newName) {
      NewClaimOwners(t, h, t', h', m.name, m.newName);
    } else if m.ReconcilePoolClaim? && NewPool(t, t', m.name, m.claimPick, m.newName) {
      assert m.newName !in t.poolOwner by { assert m.newName in t.poolOwner ==> ChildOk(t, h, m.newName); }
      NewPoolOwners(t, h, t', h', m.name, m.claimPick, m.newName);
    }
  }

  lemma UserKeepsOwned(sha1: Sha1, t: Tree, h: History, a: Action)
    requires Spares(t, a) && !a.DeleteSubnet?
    ensures var t' := t.(world := Act(sha1, t.world, a));
            KeepsOwned(t, h, t', Advance(h, t, User(a), t'))
  {
    if a.ReconcileClaim? && a.name in t.world.claims {
      ReconcileGrows(Context(sha1, t.world.pools), t.world.store, t.world.claims[a.name], a.order, a.pick);
    }
  }

  /** Every legal move keeps the invariant of the pool tree. */
  lemma TurnKeepsInv(sha1: Sha1, t: Tree, h: History, m: Move)
    requires TreeInv(sha1, t, h) && Legal(sha1, t, m)
    ensures var t' := Turn(sha1, t, m); TreeInv(sha1, t', Advance(h, t, m, t'))
  {
    TurnKeepsWorld(sha1, t, m, h.bound);
    var t' := Turn(sha1, t, m);
    if m.User? {
      UserKeepsOwned(sha1, t, h, m.action);
      OwnersKept(t, h, t', Advance(h, t, m, t'));
    } else {
      TurnKeepsPoolClaims(t, m);
      PoolClaimTurnOwners(t, h, m);
    }
  }

  lemma AllLegalPrefix(sha1: Sha1, t: Tree, moves: seq<Move>, n: nat)
    requires AllLegal(sha1, t, moves) && n <= |moves|
    ensures AllLegal(sha1, t, moves[..n])
  {
    forall i | 0 <= i < n ensures Legal(sha1, Turns(sha1, t, moves[..n][..i]), moves[..n][i]) {
      assert moves[..n][..i] == moves[..i];
    }
  }

  lemma {:induction false} RunsKeepTree(sha1: Sha1, moves: seq<Move>)
    requires AllLegal(sha1, BARE, moves)
    ensures TreeInv(sha1, Turns(sha1, BARE, moves), Chronicle(sha1, moves))
  {
    if moves != [] {
      var n := |moves| - 1;
      AllLegalPrefix(sha1, BARE, moves, n);
      RunsKeepTree(sha1, moves[..n]);
      TurnKeepsInv(sha1, Turns(sha1, BARE, moves[..n]), Chronicle(sha1, moves[..n]), moves[n]);
    }
  }

  // ---------------------------------------------------------------- the status of a pool claim

  /** Bound: to a pool that it owns, without a message. Error: to no pool, with a message. Otherwise the pool claim is
      new. */
  predicate PoolClaimOk(t: Tree, pc: PoolClaim) {
    && pc.observed <= pc.generation
    && match pc.phase
       case Bound => pc.boundPool in Owned(t.poolOwner, pc.uid) && pc.message == ""
       case Error => pc.boundPool == "" && pc.message != ""
       case Unset => pc.boundPool == "" && pc.message == "" && pc.observed == 0
       case Pending => false
  }

  ghost predicate PoolClaimStatusesOk(t: Tree) {
    forall k :: k in t.poolClaims ==> PoolClaimOk(t, t.poolClaims[k])
  }

  /** The reconciliation sees an internal claim of its pool claim, `m.claimPick`. */
  predicate Picks(t: Tree, m: Move) {
    && m.ReconcilePoolClaim? && m.name in t.poolClaims && !m.faults.lateClaims
    && m.claimPick in Owned(t.claimOwner, t.poolClaims[m.name].uid) && m.claimPick in t.world.claims
  }

  /** The pool claim observes its generation with this phase, pool and message. */
  predicate Observes(pc: PoolClaim, pc': PoolClaim, phase: Phase, boundPool: string, message: string) {
    && pc' == pc.(observed := pc.generation, phase := pc'.phase, boundPool := pc'.boundPool, message := pc'.message)
    && pc'.phase == phase && pc'.boundPool == boundPool && pc'.message == message
  }

  /** A pool claim is left alone while it is Bound, or in Error with nothing new observed. */
  lemma SettledPoolClaimStays(t: Tree, m: Move)
    requires m.ReconcilePoolClaim? && m.name in t.poolClaims
    requires var pc := t.poolClaims[m.name];
             pc.phase == Bound || (pc.phase == Error && pc.observed == pc.generation)
    ensures PoolClaimTurn(t, m) == t
  {}

  /** Otherwise it follows its internal claim. If that is in Error, so is the pool claim, with the same message and
      bound to no pool; if that is Bound, the pool claim is bound to a pool that it owns, the new one if it had none;
      if that is new, nothing happens. A lost update leaves the pool claim as it was. */
  lemma FollowsInternalClaim(t: Tree, m: Move)
    requires Picks(t, m)
    requires var pc := t.poolClaims[m.name];
             pc.phase == Unset || pc.phase == Pending || (pc.phase == Error && pc.observed != pc.generation)
    ensures var t', status, pc := PoolClaimTurn(t, m), t.world.claims[m.claimPick].status, t.poolClaims[m.name];
            && m.name in t'.poolClaims
            && (m.faults.statusLost ==> t'.poolClaims == t.poolClaims)
            && (status.phase == Error && !m.faults.statusLost ==>
                  && t' == t.(poolClaims := t'.poolClaims)
                  && Observes(pc, t'.poolClaims[m.name], Error, "", status.message))
            && (status.phase == Unset || status.phase == Pending ==> t' == t)
    ensures var t', status, pc := PoolClaimTurn(t, m), t.world.claims[m.claimPick].status, t.poolClaims[m.name];
            status.phase == Bound && status.cidr.Some? && !m.faults.latePools ==>
              var owned := Owned(t.poolOwner, pc.uid);
              && (owned != {} && m.poolPick in owned && !m.faults.statusLost ==>
                    && t' == t.(poolClaims := t'.poolClaims)
                    && Observes(pc, t'.poolClaims[m.name], Bound, m.poolPick, ""))
              && (owned == {} && m.newName !in t.world.pools ==>
                    && m.newName in t'.world.pools && t'.world.pools[m.newName].cidr == status.cidr.value
                    && Owned(t'.poolOwner, pc.uid) == {m.newName}
                    && (!m.faults.statusLost ==> Observes(pc, t'.poolClaims[m.name], Bound, m.newName, "")))
  {
    assert m.claimPick in Owned(t.claimOwner, t.poolClaims[m.name].uid);
  }

  /** What a move can do to the status of a pool claim: nothing; an Error taken from an internal claim that it owns; or
      a binding to a pool that it owns afterwards. */
  predicate StatusChange(t: Tree, m: Move, k: string, t': Tree) {
    && k in t.poolClaims && k in t'.poolClaims
    && var pc, pc' := t.poolClaims[k], t'.poolClaims[k];
       || (pc'.phase == pc.phase && pc'.boundPool == pc.boundPool && pc'.message == pc.message
           && pc'.observed == pc.observed && pc'.uid == pc.uid && pc'.generation >= pc.generation)
       || (TakesError(t, m, k) && Observes(pc, pc', Error, "", t.world.claims[m.claimPick].status.message))
       || (Observes(pc, pc', Bound, pc'.boundPool, "") && pc'.boundPool in Owned(t'.poolOwner, pc.uid))
  }

  lemma BoundStatus(t: Tree, name: string, cidr: Cidr, pick: string, newName: string, faults: Faults)
    requires name in t.poolClaims
    ensures var t', pc := BoundStep(t, name, cidr, pick, newName, faults), t.poolClaims[name];
            && name in t'.poolClaims
            && var pc' := t'.poolClaims[name];
               || pc' == pc
               || (Observes(pc, pc', Bound, pc'.boundPool, "") && pc'.boundPool in Owned(t'.poolOwner, pc.uid))
  {}

  lemma PendingStatus(t: Tree, m: Move)
    requires m.ReconcilePoolClaim? && m.name in t.poolClaims
    ensures StatusChange(t, m, m.name, PendingStep(t, m.name, m.claimPick, m.poolPick, m.newName, m.faults))
  {
    if m.claimPick in t.world.claims && t.world.claims[m.claimPick].status.cidr.Some? {
      BoundStatus(t, m.name, t.world.claims[m.claimPick].status.cidr.value, m.poolPick, m.newName, m.faults);
    }
  }

  lemma StatusStep(t: Tree, m: Move, k: string)
    requires !m.User? && k in t.poolClaims
    ensures StatusChange(t, m, k, PoolClaimTurn(t, m))
  {
    if m.ReconcilePoolClaim? && m.name in t.poolClaims && Due(t.poolClaims[m.name]) {
      if m.name == k {
        PendingStatus(t, m);
      } else {
        PendingKeepsOthers(t, m.name, m.claimPick, m.poolPick, m.newName, m.faults, k);
      }
    }
  }

  /** The move takes up the Error of an internal claim of the pool claim `k`. */
  predicate TakesError(t: Tree, m: Move, k: string) {
    Picks(t, m) && m.name == k && t.world.claims[m.claimPick].status.phase == Error
  }

  lemma OwnedPoolsStay(t: Tree, m: Move)
    requires !m.User? && t.poolOwner.Keys <= t.world.pools.Keys
    ensures forall p :: p in t.poolOwner ==>
              p in PoolClaimTurn(t, m).poolOwner && PoolClaimTurn(t, m).poolOwner[p] == t.poolOwner[p]
  {
    TurnShape(t, m);
  }

  lemma NewPoolClaimOk(t: Tree, m: Move, k: string)
    requires !m.User? && k !in t.poolClaims && k in PoolClaimTurn(t, m).poolClaims
    ensures PoolClaimOk(PoolClaimTurn(t, m), PoolClaimTurn(t, m).poolClaims[k])
  {}

  lemma TurnKeepsPoolStatuses(t: Tree, m: Move)
    requires !m.User? && PoolClaimStatusesOk(t) && StatusesOk(t.world) && t.poolOwner.Keys <= t.world.pools.Keys
    ensures PoolClaimStatusesOk(PoolClaimTurn(t, m))
  {
    var t' := PoolClaimTurn(t, m);
    OwnedPoolsStay(t, m);
    forall k | k in t'.poolClaims ensures PoolClaimOk(t', t'.poolClaims[k]) {
      if k in t.poolClaims {
        assert PoolClaimOk(t, t.poolClaims[k]);
        StatusStep(t, m, k);
        StatusStepOk(t, m, k, t');
      } else {
        NewPoolClaimOk(t, m, k);
      }
    }
  }

  lemma StatusStepOk(t: Tree, m: Move, k: string, t': Tree)
    requires StatusChange(t, m, k, t') && PoolClaimOk(t, t.poolClaims[k]) && StatusesOk(t.world)
    requires forall p :: p in t.poolOwner ==> p in t'.poolOwner && t'.poolOwner[p] == t.poolOwner[p]
    ensures PoolClaimOk(t', t'.poolClaims[k])
  {
    if TakesError(t, m, k) { assert ClaimOk(t.world.claims[m.claimPick]); }
  }

  lemma RunsSound(sha1: Sha1, moves: seq<Move>)
    requires AllLegal(sha1, BARE, moves)
    ensures var t := Turns(sha1, BARE, moves);
            StatusesOk(t.world) && t.poolOwner.Keys <= t.world.pools.Keys
  {
    RunsKeepTree(sha1, moves);
    var t, h := Turns(sha1, BARE, moves), Chronicle(sha1, moves);
    forall p | p in t.poolOwner ensures p in t.world.pools { assert ChildOk(t, h, p); }
  }

  /** Pool claim state machine. In every legal run each pool claim is new, or Bound to a pool that it owns without a
      message, or in Error with a message and bound to no pool. */
  lemma {:induction false} PoolClaimMachine(sha1: Sha1, moves: seq<Move>)
    requires AllLegal(sha1, BARE, moves)
    ensures PoolClaimStatusesOk(Turns(sha1, BARE, moves))
  {
    if moves != [] {
      var n := |moves| - 1;
      AllLegalPrefix(sha1, BARE, moves, n);
      PoolClaimMachine(sha1, moves[..n]);
      RunsSound(sha1, moves[..n]);
      if !moves[n].User? { TurnKeepsPoolStatuses(Turns(sha1, BARE, moves[..n]), moves[n]); }
    }
  }

  /** Once a pool claim is Bound, its status never changes again, whatever is edited or reconciled. */
  lemma {:induction false} BoundPoolClaimStays(sha1: Sha1, t: Tree, moves: seq<Move>, k: string)
    requires k in t.poolClaims && t.poolClaims[k].phase == Bound
    ensures var t', pc := Turns(sha1, t, moves), t.poolClaims[k];
            && k in t'.poolClaims
            && var pc' := t'.poolClaims[k];
               pc'.phase == Bound && pc'.boundPool == pc.boundPool && pc'.message == pc.message
               && pc'.observed == pc.observed
  {
    if moves != [] {
      var n := |moves| - 1;
      BoundPoolClaimStays(sha1, t, moves[..n], k);
      if !moves[n].User? { BoundStaysOnce(Turns(sha1, t, moves[..n]), moves[n], k); }
    }
  }

  lemma BoundStaysOnce(t: Tree, m: Move, k: string)
    requires !m.User? && k in t.poolClaims && t.poolClaims[k].phase == Bound
    ensures var t', pc := PoolClaimTurn(t, m), t.poolClaims[k];
            && k in t'.poolClaims
            && var pc' := t'.poolClaims[k];
               pc'.phase == Bound && pc'.boundPool == pc.boundPool && pc'.message == pc.message
               && pc'.observed == pc.observed
  {
    if m.ReconcilePoolClaim? && m.name in t.poolClaims && m.name != k {
      PendingKeepsOthers(t, m.name, m.claimPick, m.poolPick, m.newName, m.faults, k);
    }
  }

  lemma PendingKeepsOthers(
    t: Tree, name: string, claimPick: string, poolPick: string, newName: string, faults: Faults, k: string)
    requires name in t.poolClaims && k in t.poolClaims && k != name
    ensures var pcs := PendingStep(t, name, claimPick, poolPick, newName, faults).poolClaims;
            k in pcs && pcs[k] == t.poolClaims[k]
  {}

  /** Where the Error of a pool claim comes from: from a step of the run at which it saw an internal claim of its own in
      Error with that message, in the generation that it has observed. */
  lemma {:induction false} ErrorOrigin(sha1: Sha1, moves: seq<Move>, k: string) returns (i: nat)
    requires k in Turns(sha1, BARE, moves).poolClaims && Turns(sha1, BARE, moves).poolClaims[k].phase == Error
    ensures i < |moves|
    ensures var t, pc := Turns(sha1, BARE, moves[..i]), Turns(sha1, BARE, moves).poolClaims[k];
            && TakesError(t, moves[i], k)
            && pc.message == t.world.claims[moves[i].claimPick].status.message
            && pc.observed == t.poolClaims[k].generation
  {
    var n := |moves| - 1;
    var t, m := Turns(sha1, BARE, moves[..n]), moves[n];
    assert k in t.poolClaims by { if !m.User? && k !in t.poolClaims { NewPoolClaimOk(t, m, k); } }
    if !m.User? { StatusStep(t, m, k); }
    if t.poolClaims[k].phase == Error && t.poolClaims[k].message == Turns(sha1, BARE, moves).poolClaims[k].message
       && t.poolClaims[k].observed == Turns(sha1, BARE, moves).poolClaims[k].observed {
      i := ErrorOrigin(sha1, moves[..n], k);
      assert moves[..n][..i] == moves[..i];
    } else {
      i := n;
    }
  }

  // ---------------------------------------------------------------- where a child comes from

  /** The move creates the child pool `p` with the CIDR of the Bound claim it picks. */
  predicate Creates(t: Tree, h: History, m: Move, p: string) {
    && m.ReconcilePoolClaim? && m.newName == p && m.name in t.poolClaims && p !in t.poolOwner
    && m.claimPick in t.world.claims && IsBound(t.world.claims[m.claimPick]) && m.claimPick in h.bound
  }

  /** The child pool `p` of the tree `t'` has the owner, label and carving that move `m` gave it: the label is the
      parent that the pool claim names at that moment, the carving the one of its internal claim. */
  predicate BornOf(t: Tree, h: History, m: Move, p: string, t': Tree, h': History) {
    && Creates(t, h, m, p)
    && p in t'.poolOwner && t'.poolOwner[p] == t.poolClaims[m.name].uid
    && p in t'.parentLabel && t'.parentLabel[p] == t.poolClaims[m.name].parent
    && p in h'.carved && h'.carved[p] == h.bound[m.claimPick]
  }

  /** Move `i` of the run created the child pool `p`, as it is in the tree `t`. */
  ghost predicate BornAt(sha1: Sha1, moves: seq<Move>, i: nat, p: string, t: Tree, h: History)
    requires i < |moves|
  {
    BornOf(Turns(sha1, BARE, moves[..i]), Chronicle(sha1, moves[..i]), moves[i], p, t, h)
  }

  /** Owner, label and carving of existing children do not change. */
  predicate KeepsChildren(t: Tree, h: History, t': Tree, h': History) {
    forall p :: p in t.poolOwner && p in t.parentLabel && p in h.carved ==>
      && p in t'.poolOwner && t'.poolOwner[p] == t.poolOwner[p]
      && p in t'.parentLabel && t'.parentLabel[p] == t.parentLabel[p]
      && p in h'.carved && h'.carved[p] == h.carved[p]
  }

  lemma TurnKeepsChildren(sha1: Sha1, t: Tree, h: History, m: Move)
    requires OwnersOk(t, h)
    ensures var t' := Turn(sha1, t, m); KeepsChildren(t, h, t', Advance(h, t, m, t'))
  {
    if !m.User? {
      TurnShape(t, m);
      assert m.ReconcilePoolClaim? && m.newName in t.poolOwner ==> ChildOk(t, h, m.newName);
    }
  }

  lemma NewChild(t: Tree, h: History, m: Move, p: string)
    requires !m.User? && AllHeld(t.world, h.bound) && p in PoolClaimTurn(t, m).poolOwner && p !in t.poolOwner
    ensures var t' := PoolClaimTurn(t, m); BornOf(t, h, m, p, t', Advance(h, t, m, t'))
  {
    TurnShape(t, m);
  }

  lemma TurnsStep(sha1: Sha1, moves: seq<Move>)
    requires moves != []
    ensures var init, m := moves[..|moves| - 1], moves[|moves| - 1];
            var t, t' := Turns(sha1, BARE, init), Turns(sha1, BARE, moves);
            && t' == Turn(sha1, t, m)
            && Chronicle(sha1, moves) == Advance(Chronicle(sha1, init), t, m, t')
  {}

  lemma NewChildTurn(sha1: Sha1, t: Tree, h: History, m: Move, p: string)
    requires AllHeld(t.world, h.bound) && p in Turn(sha1, t, m).poolOwner && p !in t.poolOwner
    ensures var t' := Turn(sha1, t, m); BornOf(t, h, m, p, t', Advance(h, t, m, t'))
  {
    if !m.User? { NewChild(t, h, m, p); }
  }

  lemma RunsHold(sha1: Sha1, moves: seq<Move>)
    requires AllLegal(sha1, BARE, moves)
    ensures AllHeld(Turns(sha1, BARE, moves).world, Chronicle(sha1, moves).bound)
  {
    RunsKeepTree(sha1, moves);
  }

  /** In every run each child pool has the owner, the label and the carving that the move which created it gave it. */
  lemma {:induction false} ChildOrigin(sha1: Sha1, moves: seq<Move>, p: string) returns (i: nat)
    requires AllLegal(sha1, BARE, moves) && p in Turns(sha1, BARE, moves).poolOwner
    ensures i < |moves| && BornAt(sha1, moves, i, p, Turns(sha1, BARE, moves), Chronicle(sha1, moves))
  {
    var n := |moves| - 1;
    var t, h := Turns(sha1, BARE, moves[..n]), Chronicle(sha1, moves[..n]);
    AllLegalPrefix(sha1, BARE, moves, n);
    TurnsStep(sha1, moves);
    if p !in t.poolOwner {
      i := n;
      RunsHold(sha1, moves[..n]);
      NewChildTurn(sha1, t, h, moves[n], p);
    } else {
      i := ChildOrigin(sha1, moves[..n], p);
      assert moves[..n][..i] == moves[..i] && moves[..n][i] == moves[i];
      RunsKeepTree(sha1, moves[..n]);
      TurnKeepsChildren(sha1, t, h, moves[n]);
    }
  }

  /** The pool that the label names has the CIDR of the child as a Subnet, held for the cluster it was carved for. */
  ghost predicate CarvedFromLabel(t: Tree, h: History, p: string)
    requires p in t.parentLabel && p in t.world.pools && p in h.carved
  {
    HeldBy(t.world.store, h.carved[p].(poolRef := t.parentLabel[p]), t.world.pools[p].cidr)
  }

  /** The pool claim names the pool that its internal claim was bound in. */
  predicate NamesParent(t: Tree, h: History, m: Move, p: string) {
    Creates(t, h, m, p) && t.poolClaims[m.name].parent == h.bound[m.claimPick].poolRef
  }

  /** Exactly when a child pool is carved from the parent that its label names: when, at its creation, the pool claim
      named the pool that its internal claim was bound in. (Set aside is a label that names another pool with
      the same addresses, where the cluster may happen to hold the same CIDR.) */
  lemma LabelExact(sha1: Sha1, moves: seq<Move>, p: string) returns (i: nat)
    requires AllLegal(sha1, BARE, moves) && p in Turns(sha1, BARE, moves).poolOwner
    ensures i < |moves| && BornAt(sha1, moves, i, p, Turns(sha1, BARE, moves), Chronicle(sha1, moves))
    ensures var t, h := Turns(sha1, BARE, moves), Chronicle(sha1, moves);
            && p in t.parentLabel && p in t.world.pools && p in h.carved
            && var named, right := t.parentLabel[p],
                 NamesParent(Turns(sha1, BARE, moves[..i]), Chronicle(sha1, moves[..i]), moves[i], p);
               && (named == h.carved[p].poolRef <==> right)
               && (named == h.carved[p].poolRef || named !in t.world.pools
                   || !Within(t.world.pools[p].cidr, t.world.pools[named].cidr) ==>
                     (CarvedFromLabel(t, h, p) <==> right))
  {
    i := ChildOrigin(sha1, moves, p);
    RunsKeepTree(sha1, moves);
    var t, h := Turns(sha1, BARE, moves), Chronicle(sha1, moves);
    assert ChildOk(t, h, p);
    LabelHolds(sha1, t, h, p);
  }

  lemma LabelHolds(sha1: Sha1, t: Tree, h: History, p: string)
    requires StoreOk(sha1, t.world.pools, t.world.store) && ChildOk(t, h, p)
    ensures t.parentLabel[p] == h.carved[p].poolRef ==> CarvedFromLabel(t, h, p)
    ensures CarvedFromLabel(t, h, p) ==>
              var named := t.parentLabel[p];
              named in t.world.pools && Within(t.world.pools[p].cidr, t.world.pools[named].cidr)
    ensures h.carved[p].poolRef in t.world.pools
    ensures Within(t.world.pools[p].cidr, t.world.pools[h.carved[p].poolRef].cidr)
  {
    var cidr := t.world.pools[p].cidr;
    var n :| n in t.world.store && Owns(h.carved[p], cidr, t.world.store[n]);
    assert Placed(sha1, t.world.pools, n, t.world.store[n]);
    if CarvedFromLabel(t, h, p) {
      var k :| k in t.world.store && Owns(h.carved[p].(poolRef := t.parentLabel[p]), cidr, t.world.store[k]);
      assert Placed(sha1, t.world.pools, k, t.world.store[k]);
    }
    if t.parentLabel[p] == h.carved[p].poolRef {
      assert h.carved[p].(poolRef := t.parentLabel[p]) == h.carved[p];
    }
  }

  // ---------------------------------------------------------------- the tree of pools

  /** The pool `p` was carved out of `parent`. */
  predicate ChildOf(t: Tree, h: History, p: string, parent: string) {
    p in t.poolOwner && p in t.world.pools && p in h.carved && h.carved[p].poolRef == parent
  }

  /** Each pool of the path after the first is a child of the one before it. */
  predicate Lineage(t: Tree, h: History, path: seq<string>) {
    path != [] && forall i :: 0 < i < |path| ==> ChildOf(t, h, path[i], path[i - 1])
  }

  /** The part of the invariant that the shape of the tree depends on. */
  ghost predicate Sound(sha1: Sha1, t: Tree, h: History) {
    StoreOk(sha1, t.world.pools, t.world.store) && OwnersOk(t, h)
  }

  lemma ReachableSound(sha1: Sha1, moves: seq<Move>)
    requires AllLegal(sha1, BARE, moves)
    ensures Sound(sha1, Turns(sha1, BARE, moves), Chronicle(sha1, moves))
  {
    RunsKeepTree(sha1, moves);
  }

  lemma ChildInParent(sha1: Sha1, t: Tree, h: History, p: string, parent: string)
    requires Sound(sha1, t, h) && ChildOf(t, h, p, parent)
    ensures HeldBy(t.world.store, h.carved[p], t.world.pools[p].cidr)
    ensures parent in t.world.pools && Within(t.world.pools[p].cidr, t.world.pools[parent].cidr)
  {
    assert ChildOk(t, h, p);
    LabelHolds(sha1, t, h, p);
  }

  predicate PoolsNested(t: Tree, h: History) {
    forall p :: p in t.poolOwner && p in t.world.pools && p in h.carved ==>
      var parent := h.carved[p].poolRef;
      parent in t.world.pools && Within(t.world.pools[p].cidr, t.world.pools[parent].cidr)
  }

  lemma SoundNests(sha1: Sha1, t: Tree, h: History)
    requires Sound(sha1, t, h)
    ensures PoolsNested(t, h)
  {
    forall p | p in t.poolOwner && p in t.world.pools && p in h.carved
      ensures var parent := h.carved[p].poolRef;
              parent in t.world.pools && Within(t.world.pools[p].cidr, t.world.pools[parent].cidr)
    {
      ChildInParent(sha1, t, h, p, h.carved[p].poolRef);
    }
  }

  lemma {:induction false} NestedFrom(t: Tree, h: History, path: seq<string>, c: Cidr, i: nat)
    requires PoolsNested(t, h) && Lineage(t, h, path) && i < |path|
    requires path[|path| - 1] in t.world.pools && Within(c, t.world.pools[path[|path| - 1]].cidr)
    ensures path[i] in t.world.pools && Within(c, t.world.pools[path[i]].cidr)
    decreases |path| - i
  {
    if i + 1 < |path| {
      NestedFrom(t, h, path, c, i + 1);
      assert ChildOf(t, h, path[i + 1], path[i + 1 - 1]);
      WithinTransitive(c, t.world.pools[path[i + 1]].cidr, t.world.pools[path[i]].cidr);
    }
  }

  /** Every Subnet of a pool lies inside all its ancestors. */
  lemma NestedInAncestors(sha1: Sha1, t: Tree, h: History, path: seq<string>, n: string, i: nat)
    requires Sound(sha1, t, h) && Lineage(t, h, path) && i < |path|
    requires n in t.world.store && t.world.store[n].poolRef == path[|path| - 1]
    ensures path[i] in t.world.pools && Within(t.world.store[n].cidr, t.world.pools[path[i]].cidr)
  {
    assert Placed(sha1, t.world.pools, n, t.world.store[n]);
    SoundNests(sha1, t, h);
    NestedFrom(t, h, path, t.world.store[n].cidr, i);
  }

  /** Children carved out of one pool are disjoint exactly if they were carved for different clusters. */
  lemma SiblingsDisjointIff(sha1: Sha1, t: Tree, h: History, a: string, b: string, parent: string)
    requires Sound(sha1, t, h) && ChildOf(t, h, a, parent) && ChildOf(t, h, b, parent)
    ensures if h.carved[a].clusterID == h.carved[b].clusterID then t.world.pools[a].cidr == t.world.pools[b].cidr
            else Disjoint(t.world.pools[a].cidr, t.world.pools[b].cidr)
  {
    ChildInParent(sha1, t, h, a, parent);
    ChildInParent(sha1, t, h, b, parent);
    HeldApart(sha1, t.world.pools, t.world.store,
              h.carved[a], t.world.pools[a].cidr, h.carved[b], t.world.pools[b].cidr);
  }

  /** The Subnet named `n` belongs to the last pool of a line of descent. */
  predicate Under(t: Tree, h: History, path: seq<string>, n: string) {
    Lineage(t, h, path) && n in t.world.store && t.world.store[n].poolRef == path[|path| - 1]
  }

  predicate InPool(w: World, n: string, p: string)
    requires n in w.store
  {
    p in w.pools && Within(w.store[n].cidr, w.pools[p].cidr)
  }

  /** Two lines of descent that part below a common pool, for different clusters. */
  predicate Branch(h: History, left: seq<string>, right: seq<string>) {
    && |left| > 1 && |right| > 1 && left[0] == right[0]
    && left[1] in h.carved && right[1] in h.carved && h.carved[left[1]].clusterID != h.carved[right[1]].clusterID
  }

  /** A Subnet of the first pool of the path that the second pool was not made of. */
  predicate Beside(t: Tree, h: History, path: seq<string>, k: string) {
    && |path| > 1 && k in t.world.store && t.world.store[k].poolRef == path[0]
    && path[1] in h.carved && t.world.store[k].clusterID != h.carved[path[1]].clusterID
  }

  lemma BranchesDisjoint(sha1: Sha1, t: Tree, h: History, left: seq<string>, right: seq<string>, n: string, m: string)
    requires Sound(sha1, t, h) && Under(t, h, left, n) && Under(t, h, right, m) && Branch(h, left, right)
    ensures Disjoint(t.world.store[n].cidr, t.world.store[m].cidr)
  {
    NestedInAncestors(sha1, t, h, left, n, 1);
    NestedInAncestors(sha1, t, h, right, m, 1);
    SiblingsDisjointIff(sha1, t, h, left[1], right[1], left[0]);
    DisjointWithin(t.world.store[n].cidr, t.world.store[m].cidr,
                   t.world.pools[left[1]].cidr, t.world.pools[right[1]].cidr);
  }

  lemma OutsideChild(sha1: Sha1, t: Tree, h: History, path: seq<string>, n: string, other: string)
    requires Sound(sha1, t, h) && Under(t, h, path, n) && Beside(t, h, path, other)
    ensures Disjoint(t.world.store[n].cidr, t.world.store[other].cidr)
  {
    NestedInAncestors(sha1, t, h, path, n, 1);
    ChildInParent(sha1, t, h, path[1], path[0]);
    var d, s := t.world.store[other].cidr, t.world.store[other];
    var k :| k in t.world.store && Owns(h.carved[path[1]], t.world.pools[path[1]].cidr, t.world.store[k]);
    assert Apart(t.world.store[k], t.world.store[other]);
    assert Placed(sha1, t.world.pools, other, s);
    DisjointWithin(t.world.store[n].cidr, d, t.world.pools[path[1]].cidr, d);
  }

  /** Every reconciliation sees the claims that its pool claim owns. */
  predicate NoLateClaims(moves: seq<Move>) {
    forall m :: m in moves && m.ReconcilePoolClaim? ==> !m.faults.lateClaims
  }

  lemma {:induction false} OneInternalClaim(sha1: Sha1, moves: seq<Move>)
    requires AllLegal(sha1, BARE, moves) && NoLateClaims(moves)
    ensures Injective(Turns(sha1, BARE, moves).claimOwner)
  {
    if moves != [] {
      var n := |moves| - 1;
      var t, m := Turns(sha1, BARE, moves[..n]), moves[n];
      AllLegalPrefix(sha1, BARE, moves, n);
      OneInternalClaim(sha1, moves[..n]);
      ReachableSound(sha1, moves[..n]);
      if !m.User? { TurnKeepsInjective(t, m); }
    }
  }

  lemma TurnKeepsInjective(t: Tree, m: Move)
    requires !m.User? && (m.ReconcilePoolClaim? ==> !m.faults.lateClaims) && Injective(t.claimOwner)
    requires t.claimOwner.Keys <= t.world.claims.Keys
    ensures Injective(PoolClaimTurn(t, m).claimOwner)
  {
    TurnShape(t, m);
    if m.ReconcilePoolClaim? && NewClaim(t, PoolClaimTurn(t, m), m.name, m.newName) {
      InjectiveInsert(t.claimOwner, m.newName, t.poolClaims[m.name].uid);
    }
  }

  /** Hierarchy. In every deletion-free serial run, whatever claims and pool claims are edited: a pool claim owns at
      most one child pool, and at most one internal claim unless a list of claims lags behind; the CIDR of a child pool
      is that of the Subnet it was carved from; every Subnet lies in all pools that its pool descends from; Subnets
      under children of a pool that were carved for different clusters are disjoint, at any depth; and a Subnet of a
      pool is disjoint from everything under a child, unless it is the one the child was made of. */
  lemma HierarchySafe(sha1: Sha1, moves: seq<Move>)
    requires AllLegal(sha1, BARE, moves)
    ensures var t, h := Turns(sha1, BARE, moves), Chronicle(sha1, moves);
            && (NoLateClaims(moves) ==> Injective(t.claimOwner)) && Injective(t.poolOwner)
            && (forall p :: p in t.poolOwner ==> ChildOk(t, h, p))
            && (forall path, n, i :: Under(t, h, path, n) && 0 <= i < |path| ==> InPool(t.world, n, path[i]))
            && (forall left, right, n, m ::
                  Under(t, h, left, n) && Under(t, h, right, m) && Branch(h, left, right) ==>
                    Disjoint(t.world.store[n].cidr, t.world.store[m].cidr))
            && (forall path, n, k :: Under(t, h, path, n) && Beside(t, h, path, k) ==>
                  Disjoint(t.world.store[n].cidr, t.world.store[k].cidr))
  {
    ReachableSound(sha1, moves);
    var t, h := Turns(sha1, BARE, moves), Chronicle(sha1, moves);
    if NoLateClaims(moves) { OneInternalClaim(sha1, moves); }
    forall path, n, i | Under(t, h, path, n) && 0 <= i < |path| ensures InPool(t.world, n, path[i]) {
      NestedInAncestors(sha1, t, h, path, n, i);
    }
    forall left, right, n, m | Under(t, h, left, n) && Under(t, h, right, m) && Branch(h, left, right)
      ensures Disjoint(t.world.store[n].cidr, t.world.store[m].cidr)
    {
      BranchesDisjoint(sha1, t, h, left, right, n, m);
    }
    forall path, n, k | Under(t, h, path, n) && Beside(t, h, path, k)
      ensures Disjoint(t.world.store[n].cidr, t.world.store[k].cidr)
    {
      OutsideChild(sha1, t, h, path, n, k);
    }
  }

  // ---------------------------------------------------------------- internal claims that keep their cluster

  /** The cluster of an internal claim is not edited. */
  predicate KeepsCluster(t: Tree, m: Move) {
    m.User? && m.action.EditClaim? && m.action.name in t.claimOwner ==>
      m.action.spec.clusterID == t.claimOwner[m.action.name]
  }

  ghost predicate AllKeepCluster(sha1: Sha1, moves: seq<Move>) {
    forall i :: 0 <= i < |moves| ==> KeepsCluster(Turns(sha1, BARE, moves[..i]), moves[i])
  }

  /** Internal claims, their bindings and the child pools carry the UID of their owner. */
  ghost predicate Keyed(t: Tree, h: History) {
    && (forall c :: c in t.claimOwner ==> c in t.world.claims && t.world.claims[c].spec.clusterID == t.claimOwner[c])
    && (forall c :: c in t.claimOwner && c in h.bound ==> h.bound[c].clusterID == t.claimOwner[c])
    && (forall p :: p in t.poolOwner && p in h.carved ==> h.carved[p].clusterID == t.poolOwner[p])
  }

  /** What an action does to the spec of a claim that it does not delete. */
  lemma ActOnSpec(sha1: Sha1, w: World, a: Action, c: string)
    requires c in w.claims && a != DeleteClaim(c)
    ensures var w' := Act(sha1, w, a);
            && c in w'.claims
            && (w'.claims[c].spec == w.claims[c].spec || (a.EditClaim? && a.name == c && w'.claims[c].spec == a.spec))
  {}

  lemma UserKeepsKeyed(sha1: Sha1, t: Tree, h: History, a: Action)
    requires Keyed(t, h) && KeepsCluster(t, User(a)) && Spares(t, a)
    ensures var t' := t.(world := Act(sha1, t.world, a)); Keyed(t', Advance(h, t, User(a), t'))
  {
    var w := Act(sha1, t.world, a);
    forall c | c in t.claimOwner ensures c in w.claims && w.claims[c].spec.clusterID == t.claimOwner[c] {
      ActOnSpec(sha1, t.world, a, c);
    }
    RecordKeyed(t, h, w);
  }

  lemma RecordKeyed(t: Tree, h: History, w: World)
    requires Keyed(t, h)
    requires forall c :: c in t.claimOwner ==> c in w.claims && w.claims[c].spec.clusterID == t.claimOwner[c]
    ensures Keyed(t.(world := w), h.(bound := Record(t.world, w, h.bound)))
  {}

  lemma NewPoolKeyed(t: Tree, h: History, t': Tree, name: string, c: string, n: string)
    requires Keyed(t, h) && NewPool(t, t', name, c, n) && n !in t.poolOwner && c in h.bound
    ensures Keyed(t', History(Record(t.world, t'.world, h.bound), h.carved[n := h.bound[c]]))
  {
    RecordKeyed(t, h, t'.world);
  }

  lemma NewClaimKeyed(t: Tree, h: History, t': Tree, name: string, n: string)
    requires Keyed(t, h) && NewClaim(t, t', name, n)
    ensures Keyed(t', h.(bound := Record(t.world, t'.world, h.bound)))
  {
    RecordKeyed(t, h, t'.world);
  }

  lemma TurnKeepsKeyed(t: Tree, h: History, m: Move)
    requires OwnersOk(t, h) && Keyed(t, h) && AllHeld(t.world, h.bound) && !m.User?
    ensures var t' := PoolClaimTurn(t, m); Keyed(t', Advance(h, t, m, t'))
  {
    var t' := PoolClaimTurn(t, m);
    TurnShape(t, m);
    if Still(t, t') {
      RecordKeyed(t, h, t.world);
    } else if m.ReconcilePoolClaim? && NewClaim(t, t', m.name, m.newName) {
      NewClaimKeyed(t, h, t', m.name, m.newName);
    } else if m.ReconcilePoolClaim? && NewPool(t, t', m.name, m.claimPick, m.newName) {
      assert m.newName !in t.poolOwner by { assert m.newName in t.poolOwner ==> ChildOk(t, h, m.newName); }
      NewPoolKeyed(t, h, t', m.name, m.claimPick, m.newName);
    }
  }

  lemma {:induction false} RunsKeepKeyed(sha1: Sha1, moves: seq<Move>)
    requires AllLegal(sha1, BARE, moves) && AllKeepCluster(sha1, moves)
    ensures Keyed(Turns(sha1, BARE, moves), Chronicle(sha1, moves))
  {
    if moves != [] {
      var n := |moves| - 1;
      AllLegalPrefix(sha1, BARE, moves, n);
      assert AllKeepCluster(sha1, moves[..n]) by {
        forall i | 0 <= i < n ensures KeepsCluster(Turns(sha1, BARE, moves[..n][..i]), moves[..n][i]) {
          assert moves[..n][..i] == moves[..i];
        }
      }
      RunsKeepKeyed(sha1, moves[..n]);
      ReachableSound(sha1, moves[..n]);
      RunsHold(sha1, moves[..n]);
      TurnsStep(sha1, moves);
      AnyTurnKeepsKeyed(sha1, Turns(sha1, BARE, moves[..n]), Chronicle(sha1, moves[..n]), moves[n]);
    }
  }

  lemma AnyTurnKeepsKeyed(sha1: Sha1, t: Tree, h: History, m: Move)
    requires OwnersOk(t, h) && Keyed(t, h) && AllHeld(t.world, h.bound) && KeepsCluster(t, m)
    requires m.User? ==> Spares(t, m.action)
    ensures var t' := Turn(sha1, t, m); Keyed(t', Advance(h, t, m, t'))
  {
    if m.User? { UserKeepsKeyed(sha1, t, h, m.action); } else { TurnKeepsKeyed(t, h, m); }
  }

  /** Then any two children of a pool are disjoint, with everything under them, however pool claims are edited. */
  lemma ChildrenDisjoint(sha1: Sha1, moves: seq<Move>, left: seq<string>, right: seq<string>, n: string, m: string)
    requires AllLegal(sha1, BARE, moves) && AllKeepCluster(sha1, moves)
    ensures var t, h := Turns(sha1, BARE, moves), Chronicle(sha1, moves);
            Under(t, h, left, n) && Under(t, h, right, m)
            && |left| > 1 && |right| > 1 && left[0] == right[0] && left[1] != right[1] ==>
              && Disjoint(t.world.pools[left[1]].cidr, t.world.pools[right[1]].cidr)
              && Disjoint(t.world.store[n].cidr, t.world.store[m].cidr)
  {
    var t, h := Turns(sha1, BARE, moves), Chronicle(sha1, moves);
    ReachableSound(sha1, moves);
    RunsKeepKeyed(sha1, moves);
    if Under(t, h, left, n) && Under(t, h, right, m)
       && |left| > 1 && |right| > 1 && left[0] == right[0] && left[1] != right[1] {
      assert ChildOf(t, h, left[1], left[1 - 1]) && ChildOf(t, h, right[1], right[1 - 1]);
      SiblingsDisjointIff(sha1, t, h, left[1], right[1], left[0]);
      BranchesDisjoint(sha1, t, h, left, right, n, m);
    }
  }

  // ---------------------------------------------------------------- pool claims that keep their parent

  /** Neither the parent of a pool claim nor the pool of an internal claim is edited. */
  predicate KeepsParent(t: Tree, m: Move) {
    && (m.EditPoolClaim? && m.name in t.poolClaims ==> m.parent == t.poolClaims[m.name].parent)
    && (m.User? && m.action.EditClaim? && m.action.name in t.claimOwner && m.action.name in t.world.claims ==>
          m.action.spec.poolRef == t.world.claims[m.action.name].spec.poolRef)
  }

  ghost predicate AllKeepParent(sha1: Sha1, moves: seq<Move>) {
    forall i :: 0 <= i < |moves| ==> KeepsParent(Turns(sha1, BARE, moves[..i]), moves[i])
  }

  /** The pool claim `k` is the owner of the internal claim `c`, which asks its parent, and was bound there. */
  predicate Asks(t: Tree, h: History, c: string, k: string) {
    && c in t.claimOwner && c in t.world.claims && k in t.poolClaims && t.poolClaims[k].uid == t.claimOwner[c]
    && t.world.claims[c].spec.poolRef == t.poolClaims[k].parent
    && (c in h.bound ==> h.bound[c].poolRef == t.poolClaims[k].parent)
  }

  ghost predicate AllAsk(t: Tree, h: History) {
    forall c :: c in t.claimOwner ==> exists k :: Asks(t, h, c, k)
  }

  predicate LabelsRight(t: Tree, h: History) {
    forall p :: p in t.poolOwner && p in t.parentLabel && p in h.carved ==> t.parentLabel[p] == h.carved[p].poolRef
  }

  /** Pool claims keep UID and parent, and internal claims owner and pool. */
  predicate KeepsAsking(t: Tree, t': Tree) {
    && KeepsParents(t, t')
    && (forall c :: c in t.claimOwner && c in t.world.claims ==>
          && c in t'.claimOwner && t'.claimOwner[c] == t.claimOwner[c]
          && c in t'.world.claims && t'.world.claims[c].spec.poolRef == t.world.claims[c].spec.poolRef)
  }

  lemma AsksKept(t: Tree, h: History, t': Tree, c: string)
    requires c in t.claimOwner && AllAsk(t, h) && KeepsAsking(t, t')
    ensures exists k :: Asks(t', h.(bound := Record(t.world, t'.world, h.bound)), c, k)
  {
    var k :| Asks(t, h, c, k);
    assert Asks(t', h.(bound := Record(t.world, t'.world, h.bound)), c, k);
  }

  lemma AllAskKept(t: Tree, h: History, t': Tree, carved: map<string, ClaimSpec>)
    requires AllAsk(t, h) && KeepsAsking(t, t')
    requires forall c :: c in t'.claimOwner && c !in t.claimOwner ==>
               exists k :: Asks(t', History(Record(t.world, t'.world, h.bound), carved), c, k)
    ensures AllAsk(t', History(Record(t.world, t'.world, h.bound), carved))
  {
    var h' := History(Record(t.world, t'.world, h.bound), carved);
    forall c | c in t'.claimOwner ensures exists k :: Asks(t', h', c, k) {
      if c in t.claimOwner {
        AsksKept(t, h, t', c);
        var k :| Asks(t', h.(bound := h'.bound), c, k);
        assert Asks(t', h', c, k);
      }
    }
  }

  lemma UserKeepsAsking(sha1: Sha1, t: Tree, h: History, a: Action)
    requires AllAsk(t, h) && LabelsRight(t, h) && KeepsParent(t, User(a)) && Spares(t, a)
    ensures var t' := t.(world := Act(sha1, t.world, a));
            var h' := Advance(h, t, User(a), t');
            AllAsk(t', h') && LabelsRight(t', h')
  {
    var t' := t.(world := Act(sha1, t.world, a));
    forall c | c in t.claimOwner && c in t.world.claims
      ensures c in t'.world.claims && t'.world.claims[c].spec.poolRef == t.world.claims[c].spec.poolRef
    {
      ActOnSpec(sha1, t.world, a, c);
    }
    AllAskKept(t, h, t', h.carved);
  }

  lemma TurnKeepsParents(t: Tree, m: Move)
    requires !m.User? && KeepsParent(t, m)
    ensures KeepsParents(t, PoolClaimTurn(t, m))
  {
    if m.ReconcilePoolClaim? && m.name in t.poolClaims {
      PendingKeepsPoolClaims(t, m.name, m.claimPick, m.poolPick, m.newName, m.faults);
    }
  }

  lemma NewClaimAsks(t: Tree, h: History, t': Tree, name: string, n: string)
    requires AllAsk(t, h) && LabelsRight(t, h) && NewClaim(t, t', name, n)
    ensures var h' := h.(bound := Record(t.world, t'.world, h.bound)); AllAsk(t', h') && LabelsRight(t', h')
  {
    var h' := h.(bound := Record(t.world, t'.world, h.bound));
    assert Asks(t', h', n, name);
    AllAskKept(t, h, t', h.carved);
  }

  lemma NewPoolAsks(t: Tree, h: History, t': Tree, name: string, c: string, n: string)
    requires AllAsk(t, h) && LabelsRight(t, h) && PoolClaimsOk(t.poolClaims)
    requires NewPool(t, t', name, c, n) && c in h.bound && n !in t.poolOwner
    ensures LabelsRight(t', History(Record(t.world, t'.world, h.bound), h.carved[n := h.bound[c]]))
  {
    assert c in t.claimOwner && t.claimOwner[c] == t.poolClaims[name].uid;
    var k :| Asks(t, h, c, k);
    assert k == name;
  }

  predicate KeepsParents(t: Tree, t': Tree) {
    forall k :: k in t.poolClaims ==>
      && k in t'.poolClaims && t'.poolClaims[k].uid == t.poolClaims[k].uid
      && t'.poolClaims[k].parent == t.poolClaims[k].parent
  }

  lemma ChildKeepsAsking(t: Tree, h: History, t': Tree, name: string, c: string, n: string)
    requires AllAsk(t, h) && LabelsRight(t, h) && PoolClaimsOk(t.poolClaims) && KeepsParents(t, t')
    requires NewPool(t, t', name, c, n) && c in h.bound && n !in t.poolOwner
    ensures var h' := History(Record(t.world, t'.world, h.bound), h.carved[n := h.bound[c]]);
            AllAsk(t', h') && LabelsRight(t', h')
  {
    NewPoolAsks(t, h, t', name, c, n);
    AllAskKept(t, h, t', h.carved[n := h.bound[c]]);
  }

  lemma StillKeepsAsking(t: Tree, h: History, t': Tree)
    requires AllAsk(t, h) && LabelsRight(t, h) && KeepsParents(t, t') && Still(t, t')
    ensures var h' := h.(bound := Record(t.world, t'.world, h.bound)); AllAsk(t', h') && LabelsRight(t', h')
  {
    AllAskKept(t, h, t', h.carved);
  }

  lemma ShapeKeepsAsking(t: Tree, h: History, m: Move, t': Tree)
    requires PoolClaimsOk(t.poolClaims) && Shaped(t, m, t') && t.poolOwner.Keys <= t.world.pools.Keys
    requires forall c :: c in t.world.claims && IsBound(t.world.claims[c]) ==> c in h.bound
    requires AllAsk(t, h) && LabelsRight(t, h) && KeepsParents(t, t')
    ensures var h' := Advance(h, t, m, t'); AllAsk(t', h') && LabelsRight(t', h')
  {
    var h' := Advance(h, t, m, t');
    if Still(t, t') {
      StillKeepsAsking(t, h, t');
      assert h' == h.(bound := h'.bound);
    } else if m.ReconcilePoolClaim? && NewClaim(t, t', m.name, m.newName) {
      NewClaimAsks(t, h, t', m.name, m.newName);
      assert h' == h.(bound := h'.bound);
    } else {
      ChildKeepsAsking(t, h, t', m.name, m.claimPick, m.newName);
      assert h' == History(h'.bound, h.carved[m.newName := h.bound[m.claimPick]]);
    }
  }

  lemma {:induction false} RunsKeepAsking(sha1: Sha1, moves: seq<Move>)
    requires AllLegal(sha1, BARE, moves) && AllKeepParent(sha1, moves)
    ensures var t, h := Turns(sha1, BARE, moves), Chronicle(sha1, moves);
            AllAsk(t, h) && LabelsRight(t, h)
  {
    if moves != [] {
      var n := |moves| - 1;
      AllLegalPrefix(sha1, BARE, moves, n);
      assert AllKeepParent(sha1, moves[..n]) by {
        forall i | 0 <= i < n ensures KeepsParent(Turns(sha1, BARE, moves[..n][..i]), moves[..n][i]) {
          assert moves[..n][..i] == moves[..i];
        }
      }
      RunsKeepAsking(sha1, moves[..n]);
      RunsKeepTree(sha1, moves[..n]);
      var t, h := Turns(sha1, BARE, moves[..n]), Chronicle(sha1, moves[..n]);
      if moves[n].User? {
        UserKeepsAsking(sha1, t, h, moves[n].action);
      } else {
        TurnShape(t, moves[n]);
        TurnKeepsParents(t, moves[n]);
        assert t.poolOwner.Keys <= t.world.pools.Keys by {
          forall p | p in t.poolOwner ensures p in t.world.pools { assert ChildOk(t, h, p); }
        }
        ShapeKeepsAsking(t, h, moves[n], PoolClaimTurn(t, moves[n]));
      }
    }
  }

  /** Then every child pool is carved from the pool that its label names. */
  lemma UneditedLabels(sha1: Sha1, moves: seq<Move>, p: string)
    requires AllLegal(sha1, BARE, moves) && AllKeepParent(sha1, moves)
    ensures var t, h := Turns(sha1, BARE, moves), Chronicle(sha1, moves);
            p in t.poolOwner ==>
              ChildOk(t, h, p) && t.parentLabel[p] == h.carved[p].poolRef && CarvedFromLabel(t, h, p)
  {
    var t, h := Turns(sha1, BARE, moves), Chronicle(sha1, moves);
    RunsKeepAsking(sha1, moves);
    ReachableSound(sha1, moves);
    if p in t.poolOwner {
      assert ChildOk(t, h, p);
      LabelHolds(sha1, t, h, p);
    }
  }

  // ---------------------------------------------------------------- twins

  predicate BoundInternal(t: Tree, c: string) {
    c in t.claimOwner && c in t.world.claims && IsBound(t.world.claims[c])
  }

  /** A reconciliation whose list of claims lags creates a second internal claim for the same pool claim. As long as the
      cluster of internal claims is left alone, those bound in one pool share one CIDR. */
  lemma TwinsShare(sha1: Sha1, moves: seq<Move>, c: string, d: string)
    requires AllLegal(sha1, BARE, moves) && AllKeepCluster(sha1, moves)
    ensures var t, h := Turns(sha1, BARE, moves), Chronicle(sha1, moves);
            BoundInternal(t, c) && BoundInternal(t, d) && t.claimOwner[c] == t.claimOwner[d] ==>
              && c in h.bound && d in h.bound
              && (h.bound[c].poolRef == h.bound[d].poolRef ==>
                    t.world.claims[c].status.cidr == t.world.claims[d].status.cidr)
  {
    RunsKeepTree(sha1, moves);
    RunsKeepKeyed(sha1, moves);
    var t, h := Turns(sha1, BARE, moves), Chronicle(sha1, moves);
    if BoundInternal(t, c) && BoundInternal(t, d) && t.claimOwner[c] == t.claimOwner[d]
       && h.bound[c].poolRef == h.bound[d].poolRef {
      HeldApart(sha1, t.world.pools, t.world.store,
                h.bound[c], t.world.claims[c].status.cidr.value, h.bound[d], t.world.claims[d].status.cidr.value);
    }
  }

  // ---------------------------------------------------------------- a pool is split

  /** A pool claim on an empty pool is reconciled, and its internal claim is bound. */
  function BindMoves(p: string, pool: Pool, uid: string, size: nat): seq<Move> {
    [User(SetPool(p, pool)),
     AddPoolClaim("x", uid, p, size),
     ReconcilePoolClaim("x", "", "", "c", NO_FAULTS),
     User(ReconcileClaim("c", [], NO_SUBNET, Complete))]
  }

  /** The pool claim has its internal claim. */
  function Asked(p: string, pool: Pool, uid: string, size: nat): Tree {
    Tree(World(map[p := pool], map[], map["c" := Claim(Wants(p, uid, size), 1, NEW_STATUS)]),
         map["x" := PoolClaim(uid, p, size, 1, Unset, 0, "", "")], map["c" := uid], map[], map[])
  }

  /** The internal claim is Bound to `c`. */
  function Given(sha1: Sha1, p: string, pool: Pool, uid: string, size: nat, c: Cidr): Tree {
    Asked(p, pool, uid, size).(world :=
      World(map[p := pool], map[EncodeAllocationName(sha1, p, c) := Subnet(p, c, uid)],
            map["c" := BoundTo(Wants(p, uid, size), c)]))
  }

  lemma BindBegins(sha1: Sha1, p: string, pool: Pool, uid: string, size: nat)
    requires NamesDistinct(sha1, map[p := pool]) && IsUuid(uid)
    ensures var m := BindMoves(p, pool, uid, size);
            && Turns(sha1, BARE, m[..3]) == Asked(p, pool, uid, size)
            && forall i :: 0 <= i < 3 ==> Legal(sha1, Turns(sha1, BARE, m[..i]), m[i])
  {
    var m := BindMoves(p, pool, uid, size);
    var pc := PoolClaim(uid, p, size, 1, Unset, 0, "", "");
    assert m[..3][..2] == m[..2] && m[..2][..1] == m[..1] && m[..1][..0] == [] && m[..0] == [];
    var w1 := World(map[p := pool], map[], map[]);
    var t1, t2 := Tree(w1, map[], map[], map[], map[]), Tree(w1, map["x" := pc], map[], map[], map[]);
    assert map[][p := pool] == map[p := pool];
    assert Turns(sha1, BARE, m[..1]) == t1;
    assert Turns(sha1, BARE, m[..2]) == t2;
    assert PendingStep(t2, "x", "", "", "c", NO_FAULTS) == Asked(p, pool, uid, size);
    assert Turns(sha1, BARE, m[..3]) == Turn(sha1, t2, m[2]);
  }

  lemma BindRuns(sha1: Sha1, p: string, pool: Pool, uid: string, size: nat) returns (c: Cidr)
    requires Usable(pool, size) && ValidateClaim(Wants(p, uid, size), pool).None?
    requires NamesDistinct(sha1, map[p := pool]) && IsUuid(uid)
    ensures c == BlockAt(Mask(pool.cidr), size, 0)
    ensures Turns(sha1, BARE, BindMoves(p, pool, uid, size)) == Given(sha1, p, pool, uid, size, c)
    ensures AllLegal(sha1, BARE, BindMoves(p, pool, uid, size))
  {
    var m := BindMoves(p, pool, uid, size);
    c := BlockAt(Mask(pool.cidr), size, 0);
    BindBegins(sha1, p, pool, uid, size);
    FirstReconcile(sha1, p, pool, "c", uid, size);
    assert m[..4] == m;
    assert Turns(sha1, BARE, m) == Turn(sha1, Asked(p, pool, uid, size), m[3]);
  }

  lemma AllLegalMore(sha1: Sha1, t: Tree, moves: seq<Move>, m: Move)
    requires AllLegal(sha1, t, moves) && Legal(sha1, Turns(sha1, t, moves), m)
    ensures AllLegal(sha1, t, moves + [m]) && Turns(sha1, t, moves + [m]) == Turn(sha1, Turns(sha1, t, moves), m)
  {
    var more := moves + [m];
    assert more[..|moves|] == moves;
    forall i | 0 <= i < |more| ensures Legal(sha1, Turns(sha1, t, more[..i]), more[i]) {
      if i < |moves| { assert more[..i] == moves[..i]; }
    }
  }

  const MAKE_CHILD: Move := ReconcilePoolClaim("x", "c", "", "k", NO_FAULTS)

  lemma ChildMade(t: Tree, pc: PoolClaim, c: Cidr)
    requires t.poolClaims == map["x" := pc] && t.claimOwner == map["c" := pc.uid] && t.poolOwner == map[]
    requires "c" in t.world.claims && t.world.claims["c"].status.phase == Bound
    requires t.world.claims["c"].status.cidr == Some(c)
    requires Due(pc) && "k" !in t.world.pools
    ensures PoolClaimTurn(t, MAKE_CHILD) == SetStatus(CreateChildPool(t, pc, "k", c), "x", Bound, "k", "")
  {
    assert "c" in Owned(t.claimOwner, pc.uid);
    assert Owned(t.poolOwner, pc.uid) == {};
  }

  /** The pool claim is bound to the new child pool `k` with CIDR `c` and this label. */
  predicate HasChild(t: Tree, named: string, uid: string, c: Cidr) {
    && t.poolOwner == map["k" := uid] && t.parentLabel == map["k" := named]
    && "k" in t.world.pools && t.world.pools["k"].cidr == c
    && "x" in t.poolClaims && t.poolClaims["x"].phase == Bound && t.poolClaims["x"].boundPool == "k"
  }

  lemma ChildLegal(sha1: Sha1, p: string, pool: Pool, uid: string, size: nat, c: Cidr, pc: PoolClaim)
    requires p != "k" && NamesDistinct(sha1, map[p := pool, "k" := Pool(c, 0, 0, 0)]) && pc.uid == uid && Due(pc)
    ensures var t := Given(sha1, p, pool, uid, size, c).(poolClaims := map["x" := pc]);
            && Legal(sha1, t, MAKE_CHILD) && HasChild(Turn(sha1, t, MAKE_CHILD), pc.parent, uid, c)
            && Turn(sha1, t, MAKE_CHILD).world.store == t.world.store
  {
    var t := Given(sha1, p, pool, uid, size, c).(poolClaims := map["x" := pc]);
    ChildMade(t, pc, c);
    assert map[p := pool]["k" := Pool(c, 0, 0, 0)] == map[p := pool, "k" := Pool(c, 0, 0, 0)];
  }

  lemma OnePoolDistinct(sha1: Sha1, p: string, pool: Pool, child: Pool)
    requires p != "k" && NamesDistinct(sha1, map[p := pool, "k" := child])
    ensures NamesDistinct(sha1, map[p := pool])
  {
    FewerNamesDistinct(sha1, map[p := pool, "k" := child], "k");
    assert map[p := pool, "k" := child] - {"k"} == map[p := pool];
  }

  /** Splitting works: the run is legal, and ends with a child pool whose CIDR is the first block of the desired
      size of the parent, labelled with the parent, to which the pool claim is bound. */
  lemma SplitWorks(sha1: Sha1, p: string, pool: Pool, uid: string, size: nat)
    requires Usable(pool, size) && ValidateClaim(Wants(p, uid, size), pool).None? && p != "k" && IsUuid(uid)
    requires NamesDistinct(sha1, map[p := pool, "k" := Pool(BlockAt(Mask(pool.cidr), size, 0), 0, 0, 0)])
    ensures var moves := BindMoves(p, pool, uid, size) + [MAKE_CHILD];
            && AllLegal(sha1, BARE, moves)
            && HasChild(Turns(sha1, BARE, moves), p, uid, BlockAt(Mask(pool.cidr), size, 0))
  {
    OnePoolDistinct(sha1, p, pool, Pool(BlockAt(Mask(pool.cidr), size, 0), 0, 0, 0));
    var c := BindRuns(sha1, p, pool, uid, size);
    var t := Given(sha1, p, pool, uid, size, c);
    ChildLegal(sha1, p, pool, uid, size, c, t.poolClaims["x"]);
    AllLegalMore(sha1, BARE, BindMoves(p, pool, uid, size), MAKE_CHILD);
  }

  /** An edit of the parent between binding and splitting mislabels the child: it is labelled with the new parent, of
      which there is no Subnet at all, and has a CIDR of the old one. */
  lemma EditedParentMislabels(sha1: Sha1, p: string, pool: Pool, uid: string, size: nat, q: string)
    requires Usable(pool, size) && ValidateClaim(Wants(p, uid, size), pool).None? && p != "k" && IsUuid(uid) && q != p
    requires NamesDistinct(sha1, map[p := pool, "k" := Pool(BlockAt(Mask(pool.cidr), size, 0), 0, 0, 0)])
    ensures var moves := BindMoves(p, pool, uid, size) + [EditPoolClaim("x", q, size)] + [MAKE_CHILD];
            var t, c := Turns(sha1, BARE, moves), BlockAt(Mask(pool.cidr), size, 0);
            && AllLegal(sha1, BARE, moves) && HasChild(t, q, uid, c)
            && t.world.store == map[EncodeAllocationName(sha1, p, c) := Subnet(p, c, uid)]
            && forall n :: n in t.world.store ==> t.world.store[n].poolRef != q
  {
    OnePoolDistinct(sha1, p, pool, Pool(BlockAt(Mask(pool.cidr), size, 0), 0, 0, 0));
    var c := BindRuns(sha1, p, pool, uid, size);
    var moves, edit := BindMoves(p, pool, uid, size), EditPoolClaim("x", q, size);
    var pc := PoolClaim(uid, q, size, 2, Unset, 0, "", "");
    AllLegalMore(sha1, BARE, moves, edit);
    var t := Given(sha1, p, pool, uid, size, c).(poolClaims := map["x" := pc]);
    assert Turns(sha1, BARE, moves + [edit]) == t;
    ChildLegal(sha1, p, pool, uid, size, c, pc);
    AllLegalMore(sha1, BARE, moves + [edit], MAKE_CHILD);
  }

  // ---------------------------------------------------------------- a list of pools that lags

  /** The child pool is created but the status update is lost; then a list that does not show the child yet leads to
      another one. */
  const CHILD_UNREPORTED: Move := ReconcilePoolClaim("x", "c", "", "k", Faults(true, false, false))
  const CHILD_AGAIN: Move := ReconcilePoolClaim("x", "c", "", "l", Faults(false, false, true))

  lemma ChildAgain(t: Tree, pc: PoolClaim, c: Cidr)
    requires t.poolClaims == map["x" := pc] && t.claimOwner == map["c" := pc.uid] && t.poolOwner == map[]
    requires "c" in t.world.claims && t.world.claims["c"].status.phase == Bound
    requires t.world.claims["c"].status.cidr == Some(c)
    requires Due(pc) && "k" !in t.world.pools && "l" !in t.world.pools
    ensures var t' := CreateChildPool(t, pc, "k", c);
            && PoolClaimTurn(t, CHILD_UNREPORTED) == t'
            && PoolClaimTurn(t', CHILD_AGAIN) == SetStatus(CreateChildPool(t', pc, "l", c), "x", Bound, "l", "")
  {
    assert "c" in Owned(t.claimOwner, pc.uid);
    assert Owned(t.poolOwner, pc.uid) == {};
  }

  /** A list of pools that lags makes two child pools of one CIDR. */
  lemma LateListTwins(sha1: Sha1, p: string, pool: Pool, uid: string, size: nat)
    requires Usable(pool, size) && ValidateClaim(Wants(p, uid, size), pool).None? && IsUuid(uid)
    requires p != "k" && p != "l" && NamesDistinct(sha1, map[p := pool])
    ensures var t := Turns(sha1, BARE, BindMoves(p, pool, uid, size) + [CHILD_UNREPORTED] + [CHILD_AGAIN]);
            var c := BlockAt(Mask(pool.cidr), size, 0);
            && "k" in t.world.pools && "l" in t.world.pools
            && t.world.pools["k"] == t.world.pools["l"] == Pool(c, 0, 0, 0)
            && "k" in t.poolOwner && "l" in t.poolOwner && t.poolOwner["k"] == t.poolOwner["l"] == uid
            && PoolSubnets(t.world.store, "k") == {} && PoolSubnets(t.world.store, "l") == {}
  {
    var moves := BindMoves(p, pool, uid, size);
    var c := BindRuns(sha1, p, pool, uid, size);
    var t := Given(sha1, p, pool, uid, size, c);
    ChildAgain(t, t.poolClaims["x"], c);
    TurnsMore(sha1, BARE, moves, CHILD_UNREPORTED);
    TurnsMore(sha1, BARE, moves + [CHILD_UNREPORTED], CHILD_AGAIN);
  }

  lemma TurnsMore(sha1: Sha1, t: Tree, moves: seq<Move>, m: Move)
    ensures Turns(sha1, t, moves + [m]) == Turn(sha1, Turns(sha1, t, moves), m)
  {
    assert (moves + [m])[..|moves|] == moves;
  }

  /** A new claim on the empty pool `k` for a block of this size. */
  predicate FirstIn(w: World, name: string, k: string, size: nat) {
    && k in w.pools && Usable(w.pools[k], size) && PoolSubnets(w.store, k) == {}
    && ValidateClaim(Wants(k, name, size), w.pools[k]).None?
    && name in w.claims && w.claims[name] == Claim(Wants(k, name, size), 1, NEW_STATUS) && name !in w.store
  }

  lemma FirstBound(sha1: Sha1, w: World, name: string, k: string, size: nat)
    requires FirstIn(w, name, k, size)
    requires EncodeAllocationName(sha1, k, BlockAt(Mask(w.pools[k].cidr), size, 0)) !in w.store
    ensures var spec, c := Wants(k, name, size), BlockAt(Mask(w.pools[k].cidr), size, 0);
            Act(sha1, w, ReconcileClaim(name, [], NO_SUBNET, Complete)) == Rebound(sha1, w, name, spec, c)
  {
    var spec, c := Wants(k, name, size), BlockAt(Mask(w.pools[k].cidr), size, 0);
    EmptyPoolCandidate(spec, w.pools[k]);
    assert CidrsOf({}) == {} && Lists([], {});
    BindsFresh(sha1, w, name, spec, [], c);
  }

  /** In such twin pools the first claims of different clusters get the same CIDR. */
  lemma TwinPoolsOverlap(sha1: Sha1, w: World, k: string, l: string, size: nat)
    requires FirstIn(w, "a", k, size) && FirstIn(w, "b", l, size) && k != l && w.pools[k] == w.pools[l]
    requires var c := BlockAt(Mask(w.pools[k].cidr), size, 0);
             && EncodeAllocationName(sha1, k, c) !in w.store && EncodeAllocationName(sha1, l, c) !in w.store
             && !Clash(sha1, k, c, l, c)
    ensures var a, b := ReconcileClaim("a", [], NO_SUBNET, Complete), ReconcileClaim("b", [], NO_SUBNET, Complete);
            var w', c := Act(sha1, Act(sha1, w, a), b), BlockAt(Mask(w.pools[k].cidr), size, 0);
            && "a" in w'.claims && IsBound(w'.claims["a"]) && w'.claims["a"].status.cidr == Some(c)
            && "b" in w'.claims && IsBound(w'.claims["b"]) && w'.claims["b"].status.cidr == Some(c)
            && HeldBy(w'.store, Wants(k, "a", size), c) && HeldBy(w'.store, Wants(l, "b", size), c)
  {
    var c := BlockAt(Mask(w.pools[k].cidr), size, 0);
    FirstBound(sha1, w, "a", k, size);
    var w1 := Rebound(sha1, w, "a", Wants(k, "a", size), c);
    DashInName(sha1, k, c, "b");
    assert PoolSubnets(w1.store, l) == {};
    FirstBound(sha1, w1, "b", l, size);
    var w2 := Rebound(sha1, w1, "b", Wants(l, "b", size), c);
    assert Owns(Wants(k, "a", size), c, w2.store[EncodeAllocationName(sha1, k, c)]);
    assert Owns(Wants(l, "b", size), c, w2.store[EncodeAllocationName(sha1, l, c)]);
  }
}
