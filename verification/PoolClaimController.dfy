/** The SubnetPoolClaim reconciler as it works on the objects of a namespace, proved against the steps of the
    pool tree. */
module PoolClaimController {
  import opened Cidrs
  import opened Allocator
  import opened Claims
  import opened SerialRuns
  import opened Hierarchy

  class Controller {
    var claims: map<string, Claim>
    var pools: map<string, Pool>
    var poolClaims: map<string, PoolClaim>
    var claimOwner: map<string, string>
    var poolOwner: map<string, string>
    var parentLabel: map<string, string>
    /** The Subnets, which this controller only passes over. */
    const world: World

    ghost function State(): Tree
      reads this
    {
      Tree(World(pools, world.store, claims), poolClaims, claimOwner, poolOwner, parentLabel)
    }

    /** Owner references are part of the objects they belong to. */
    ghost predicate Valid()
      reads this
    {
      claimOwner.Keys <= claims.Keys && poolOwner.Keys <= pools.Keys
    }

    constructor (t: Tree)
      requires t.claimOwner.Keys <= t.world.claims.Keys && t.poolOwner.Keys <= t.world.pools.Keys
      ensures Valid() && State() == t
    {
      claims, pools, world := t.world.claims, t.world.pools, t.world;
      poolClaims, claimOwner, poolOwner, parentLabel := t.poolClaims, t.claimOwner, t.poolOwner, t.parentLabel;
    }

    /** `getOwnedSubnetClaims` and `getOwnedSubnetPools`: the listed objects that refer to the owner. */
    method GetOwned(listed: set<string>, owner: map<string, string>, uid: string) returns (owned: seq<string>)
      requires listed <= owner.Keys
      ensures forall n :: n in owned <==> n in listed && n in Owned(owner, uid)
      ensures owned == [] <==> listed * Owned(owner, uid) == {}
      ensures owned != [] ==> owned[0] in Owned(owner, uid)
    {
      owned := [];
      var rest := listed;
      while rest != {}
        invariant rest <= listed
        invariant forall n :: n in owned <==> n in listed && n in Owned(owner, uid) && n !in rest
        decreases rest
      {
        var n :| n in rest;
        if owner[n] == uid { owned := owned + [n]; }
        rest := rest - {n};
      }
      assert owned != [] ==> owned[0] in owned;
      assert forall n :: n in listed * Owned(owner, uid) <==> n in owned;
    }

    method CreateInternalSubnetClaim(pc: PoolClaim, newName: string)
      requires Valid()
      modifies this
      ensures Valid()
      ensures State() == CreateInternalClaim(old(State()), pc, newName)
    {
      if newName in claims { return; }
      claims := claims[newName := Claim(InternalSpec(pc), 1, NEW_STATUS)];
      claimOwner := claimOwner[newName := pc.uid];
    }

    method CreatePool(pc: PoolClaim, newName: string, cidr: Cidr)
      requires Valid()
      modifies this
      ensures Valid()
      ensures State() == CreateChildPool(old(State()), pc, newName, cidr)
    {
      pools := pools[newName := Pool(cidr, 0, 0, 0)];
      poolOwner, parentLabel := poolOwner[newName := pc.uid], parentLabel[newName := pc.parent];
    }

    method UpdatePoolClaimStatus(name: string, phase: Phase, boundPool: string, message: string)
      requires name in poolClaims
      modifies this`poolClaims
      ensures State() == SetStatus(old(State()), name, phase, boundPool, message)
    {
      var latest := poolClaims[name];
      poolClaims := poolClaims[name := latest.(
        observed := latest.generation, phase := phase, boundPool := boundPool, message := message)];
    }

    method ReconcileBoundClaim(name: string, cidr: Cidr, newName: string, faults: Faults)
      returns (ghost poolPick: string)
      requires Valid() && name in poolClaims
      modifies this
      ensures Valid()
      ensures State() == BoundStep(old(State()), name, cidr, poolPick, newName, faults)
    {
      var owned := GetOwned(if faults.latePools then {} else poolOwner.Keys, poolOwner, poolClaims[name].uid);
      var childPool;
      if owned == [] {
        poolPick := "";
        if newName in pools { return; }
        childPool := newName;
        CreatePool(poolClaims[name], newName, cidr);
      } else {
        childPool := owned[0];
        poolPick := childPool;
      }
      if !faults.statusLost { UpdatePoolClaimStatus(name, Bound, childPool, ""); }
    }

    method ReconcilePendingClaim(name: string, newName: string, faults: Faults)
      returns (ghost claimPick: string, ghost poolPick: string)
      requires Valid() && name in poolClaims
      modifies this
      ensures Valid()
      ensures State() == PendingStep(old(State()), name, claimPick, poolPick, newName, faults)
    {
      claimPick, poolPick := "", "";
      var owned := GetOwned(if faults.lateClaims then {} else claimOwner.Keys, claimOwner, poolClaims[name].uid);
      if owned == [] {
        CreateInternalSubnetClaim(poolClaims[name], newName);
        return;
      }
      var claim := owned[0];
      claimPick := claim;
      var status := claims[claim].status;
      match status.phase {
        case Bound =>
          if status.cidr.Some? { poolPick := ReconcileBoundClaim(name, status.cidr.value, newName, faults); }
        case Error =>
          if !faults.statusLost { UpdatePoolClaimStatus(name, Error, "", status.message); }
        case _ =>
      }
    }

    /** `SubnetPoolClaimReconciler.Reconcile` is a move of the pool tree. */
    method Reconcile(name: string, newName: string, faults: Faults)
      returns (ghost claimPick: string, ghost poolPick: string)
      requires Valid()
      modifies this
      ensures Valid()
      ensures State() == PoolClaimTurn(old(State()), ReconcilePoolClaim(name, claimPick, poolPick, newName, faults))
    {
      claimPick, poolPick := "", "";
      if name !in poolClaims { return; }
      var pc := poolClaims[name];
      if pc.observed == pc.generation && pc.phase == Bound { return; }
      match pc.phase {
        case Unset | Pending => claimPick, poolPick := ReconcilePendingClaim(name, newName, faults);
        case Bound =>
        case Error =>
          if pc.observed != pc.generation {
            claimPick, poolPick := ReconcilePendingClaim(name, newName, faults);
          }
      }
    }
  }
}
