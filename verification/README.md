# Plexaubnet, modelled in Dafny

Plexaubnet is a Kubernetes operator that hands out IPv4 CIDR blocks. This project models its allocator, its claim and pool
controllers and its status calculation, and proves what they guarantee over all inputs, all interleavings and all runs.

| file | models |
|---|---|
| `Powers.dfy`, `Cidrs.dfy` | aligned power-of-two blocks; CIDRs as ranges (prefix notation of section 3.1 of RFC 4632) |
| `Bytes.dfy` | byte-by-byte address arithmetic without carry or borrow |
| `NetUtil.dfy` | `CIDROverlaps` and `CalculateLastIP`, for IPv4 and IPv6 |
| `Bitmap.dfy`, `Counting.dfy` | `CIDRMap`, and how allocations change the free-block counts |
| `MarkOrder.dfy` | marking used CIDRs in the order of a Go map iteration |
| `Names.dfy` | `EncodeAllocationName` |
| `Allocator.dfy` | `findAvailableCIDR`, `validateRequestedCIDR`, `selectCandidateCIDR` |
| `Protocol.dfy` | any number of interleaved allocators with lists of any age |
| `StaleRaces.dfy` | when stale lists lead to overlapping Subnets |
| `Replicas.dfy` | when stale lists give one cluster several Subnets |
| `AllocationLoop.dfy`, `Retries.dfy` | `allocateCIDR` and `createAllocation` against a disturbed API server, and what the retries achieve |
| `Claims.dfy` | `processClaimReconciliation`, `updateClaimStatus`, `validateClaim` |
| `SerialRuns.dfy` | runs of whole reconciliations, one at a time, with user edits and deletions |
| `Hierarchy.dfy`, `PoolClaimController.dfy` | splitting pools through SubnetPoolClaims |
| `StatusCalc.dfy` | `CalculatePoolStatus` against `statuscalc.Calculate` |
| `PoolStatusLoop.dfy` | the paged list and the event-driven status controller |

How the model represents things (`Cidrs.DisjointMeansNoCommonAddress` ties the range arithmetic to single addresses):

- A CIDR string is `V4(addr, len)`, as written and not masked, or `Foreign` for any other text, which may still parse as
  another address family. Object names are strings, and the name encoding works on the rendered text.
- The bitmap's big integer is the set of its one-bits. `math.Pow(2, n)` is an integer power, zero for negative `n`.
- The API server is a map from name to Subnet with create-if-absent as one step. Between any two requests other clients may
  replace its Subnets and pools, and any request may fail (`AllocationLoop.Disturbance`); they may also rewrite the claim
  between any two status requests (`Claims.Turnout`).
- Histories, such as the spec that a claim was bound with, are functions of the run and not part of the state
  (`SerialRuns.Bindings`, `Hierarchy.Chronicle`).
- Nondeterminism (map order, list order, generated names) is a field of an event, so a theorem over all events covers every choice.
- `allocateCIDR` appears twice: as the loop of `AllocationLoop`, whose surroundings do anything, and as the steps of `Protocol`,
  which interleave with those of other allocators. Every call of the loop is proved to be a run of those steps
  (`AllocationLoop.PlaysTo`).
- SHA-1 is a parameter of which only the digest length is known. Where equal names would matter, theorems assume
  `Protocol.NamesDistinct`: no two CIDRs inside the pools in play have the same encoded name. Pool names of at most 44
  characters are never hashed, and for them it is proved (`ShortNamesDistinct`).
- Everything lives in one namespace. Error messages are shortened, keeping their class and that they are not empty.

## What the code does not do

Where the code does less than one would expect, or than its comments say. Properties that fail have a lemma with a failing
input or run, and the exact condition under which they hold.

- **Marking order.** `findAvailableCIDR` ignores the errors of `MarkAllocated`, so with nested used CIDRs the bitmap can depend
  on the map order. It does not exactly when every used CIDR that strictly contains another is covered by those it
  contains (`OrderIndependentIffTiled`; a failing input is in `NestedOrderMatters`).
- **Straddling CIDRs.** `contains` looks at the network address only. When the used CIDRs tile one another in that sense, the
  block found is disjoint from all of them exactly when none reaches into the pool from below (`FoundIsDisjoint`; failing
  inputs are in `StraddlingOverlooked`, and in `NestedAnswerOverlaps` for CIDRs that do not tile).
- **Stale lists and overlapping offers.** Names protect equal CIDRs only. A pool is safe under arbitrary staleness exactly when any
  two different CIDRs that its claims can be given are disjoint, namely the aligned blocks of usable sizes and the requested
  CIDRs inside the pool (`StaleSafeIff`). For dynamic claims alone that means at most one usable size
  (`StaleSafeIffOneSize`). Failing runs are in `RaceOverlaps`, and in `RequestOverlaps` for a requested CIDR against a block.
- **Several allocators for one cluster.** A comment promises that the same cluster always gets the same CIDR, but the existing
  Subnets of the cluster are looked for once, before the retries. With lists of different ages two reconciliations of one
  claim end up with different CIDRs although nothing fails and nothing is deleted (`StaleTwins`). At most one Subnet per
  cluster is guaranteed if at most one allocator is begun for it (`OneSubnetPerCluster`); with repeated ones exactly when
  claims on the pool can be given one CIDR only (`RepeatsHarmlessIff`).
- **Lookup by cluster ID.** `processClaimReconciliation` looks for a Subnet named like the cluster ID, but Subnets are named by
  pool and CIDR. A cluster ID that is such a name binds a claim to another cluster's CIDR (`HijackedLookup`); the claim owns
  what it is bound to exactly when no Subnet of another cluster has that name (`LookupExact`).
- **Conflicts are forgotten.** A comment says that the local map avoids retrying the same CIDR, but a conflict removes the
  candidate from it. A dynamic claim, whose used CIDRs tile one another, is offered the same candidate again exactly when no
  CIDR known after the list request, among those that start in the pool, meets it (`RepeatsIffClear`); so a request that
  fails, or succeeds with nothing new, repeats the conflict (`OldNewsRepeats`). A requested CIDR is proposed again exactly
  when the latest list is clear of it (`RequestRepeatsIff`).
- **Edited claims.** Nothing keeps a Bound claim from being edited, and its status survives. Give it another claim's cluster ID,
  and two Bound claims of one pool and cluster carry different CIDRs (`EditBreaksIdempotency`). What holds, whatever is
  edited, holds of the pool and cluster a claim was bound with (`Idempotent`); in its own pool a Bound claim is backed
  exactly when its cluster is still that one, and in another pool only if that pool has the CIDR, too
  (`BackedIffUnedited`; `MovedAndBacked` shows such a case); in general exactly when, at some step, the pool and the cluster
  it names were given its CIDR (`BackedIffGiven`).
- **Edited pool claims.** An edit never reaches an existing internal claim (`EditsStayOutside`), but the label of the child pool
  is taken from the edited spec, so that a child can be labelled with a pool it has nothing to do with
  (`EditedParentMislabels`). The label is right exactly when, at the creation of the child, the pool claim named
  the pool that its internal claim was bound in (`LabelExact`).
- **Overwritten bindings.** `updateClaimStatus` writes over whatever the claim has become. If the list of this reconciliation shows
  the Subnet of another one that has bound the claim, the binding survives exactly if the pool exists and the claim is
  valid, or its Error was there before (`BoundSurvivesIff`). With an older list the cluster ends up with the same CIDR exactly
  if its candidate happens to be that CIDR (`SameAtBeginIff`, `SameLaterIff`), and otherwise a valid claim is bound anew, to
  another CIDR (`BindingOverwritten`).
- **Observed generation.** A log line announces an update of `ObservedGeneration` for a Bound claim of a newer generation; the
  status is in fact left entirely as it was (`ClaimStateMachine`).
- **Lagging lists of owned objects.** A second internal claim made from a lagging list shares the CIDR of the first (`TwinsShare`).
  A lagging list of pools makes a second child pool of the same CIDR (`LateListTwins`), and first claims in the two get
  the same block (`TwinPoolsOverlap`).
- **Late pools.** A pool's own events never reach the status controller. So a pool created after its Subnets keeps an empty
  status (`LatePoolStaysEmpty`), a pool deleted and created again loses its status (`RecreatedStaysEmpty`), and one whose CIDR is
  edited keeps the old numbers (`EditedUpToDateIff` says when they are still right). A quiescent pool whose CIDR was not
  edited is up to date exactly when, at some moment since its creation, it was queued, or taken but not yet read
  (`ConvergedIffPending`).
- **Comments.** The comment on `EncodeAllocationName` says the function is unused; it names every Subnet. The example in
  `CIDROverlaps` of ranges that overlap without containing each other's network address does not exist (`OverlapExact`).
- **IPv4-mapped networks.** Between IPv6 networks `CIDROverlaps` misses common addresses when exactly one of the two is
  IPv4-mapped (`OverlapExact`, `OverlapMissesMapped`).

## Model

| member | source | states |
|---|---|---|
| `Protocol.StaleRunsSafe` | internal/controller/allocator.go:165-267 | over every interleaving of allocators, dynamic or with requested CIDRs, each with lists of any age, failed requests and deletions, a pool keeps its Subnets inside it and pairwise disjoint if any two different CIDRs its claims can be given are disjoint |
| `StaleRaces.StaleSafeIff` | internal/controller/allocator.go:311-388 | when no two CIDRs of the pool have the same name, all stale runs from an empty store are safe if and only if any two different CIDRs that claims can be given, aligned blocks of usable sizes and requested CIDRs inside the pool, are disjoint |
| `StaleRaces.StaleSafeIffOneSize` | internal/controller/allocator.go:409-490 | with dynamic claims only, that is if and only if at most one of the sizes asked for is usable |
| `StaleRaces.RequestOverlaps` | internal/controller/allocator.go:353-388 | for every requested CIDR that meets a block of a usable size without being it, a run fills the pool up to the block and then creates the requested CIDR from an old list |
| `Protocol.RaceOverlaps` | internal/controller/allocator.go:239-263 | for any two claims whose first candidates overlap, dynamic or requested, a run of two allocators that both list the empty pool creates overlapping Subnets, unless and only unless the names of the two coincide |
| `Protocol.StaleReportsExclusive` | internal/controller/allocator.go:457-485 | in every stale run without deletions, for claims of any size and requested CIDRs and pools with distinct names, an allocator that reports a CIDR holds its Subnet, and no CIDR is reported to two clusters |
| `Protocol.ShortNamesDistinct` | internal/controller/allocator.go:98-111 | pools with names of at most 44 characters have distinct names for all their CIDRs |
| `Protocol.StepGrows` | internal/controller/allocator.go:443-455 | no step replaces or removes an existing Subnet, except a deletion |
| `Replicas.OneSubnetPerCluster` | internal/controller/allocator.go:183-193 | in every stale run, with deletions, failures, requested CIDRs and mixed sizes, a cluster for which at most one allocator is begun in a pool has at most one Subnet there |
| `Replicas.RepeatsHarmlessIff` | internal/controller/allocator.go:183-263 | if allocators may be begun repeatedly for a cluster, every stale run leaves every cluster with at most one Subnet in the pool if and only if claims on the pool can be given one CIDR only |
| `Replicas.StaleTwins` | internal/controller/allocator.go:203-263 | in every pool with more than two blocks of a size, a run without failures and deletions in which two allocators of one claim finish with disjoint CIDRs |
| `Replicas.SameAtBeginIff` | internal/controller/allocator.go:183-193 | an allocator whose cluster has one Subnet ends at once with its CIDR if and only if its list, of any age, shows the Subnet |
| `Replicas.SameLaterIff` | internal/controller/allocator.go:203-263 | in a later round it ends with that CIDR if and only if its candidate is that CIDR |
| `Replicas.BindingOverwritten` | internal/controller/reconciler.go:299-308 | after such a run the status of one reconciler replaces the binding of the other by another CIDR |
| `Protocol.RepeatsIffClear` | internal/controller/allocator.go:195-257 | after a conflict of a dynamic claim and a list request of any age or failing, the allocator proposes the same CIDR again, in every map order, if and only if no CIDR it then knows of, among those that start in the pool, meets it |
| `Protocol.OldNewsRepeats` | internal/controller/allocator.go:282-308 | a list request that fails, or succeeds with nothing new, leads to the same candidate |
| `Protocol.RequestRepeatsIff` | internal/controller/allocator.go:353-388 | after a conflict a requested CIDR is proposed again if and only if the latest list is clear of it |
| `SerialRuns.SerialRunsSafe` | internal/controller/allocator.go:183-263 | every serial sequence of dynamic and requested claims, edits, lost status updates and deletions keeps the Subnets of every pool inside it, pairwise disjoint, and at most one per cluster, as long as a pool is deleted only without Subnets and a new CIDR of a pool contains its Subnets |
| `SerialRuns.CandidateDisjoint` | internal/controller/allocator.go:311-388 | with a current list of disjoint Subnets inside the pool, every candidate, first-fit or requested, is inside the pool and disjoint from all of them |
| `SerialRuns.ClaimStateMachine` | internal/controller/reconciler.go:57-82 | in every run each claim is new, Bound with CIDR, no message and Ready, or Error with message, no CIDR and not Ready, and never ahead of its generation; a Bound status never changes again under any reconcile, edit, pool change or pool deletion |
| `SerialRuns.BoundIffServable` | internal/controller/reconciler.go:145-246 | with distinct names, one undisturbed reconcile of a valid claim binds it if and only if its cluster has a Subnet, or a block of its size is clear of all current Subnets, or its requested CIDR is inside the pool and clear of them |
| `SerialRuns.ReconcileDecides` | internal/controller/reconciler.go:84-246 | an undisturbed reconcile of a claim that is not Bound leaves it in Error with the objection to it, or in Error or Bound by the Subnet named like its cluster ID, or Bound or in Error as the allocation decides |
| `SerialRuns.Idempotent` | internal/controller/reconciler.go:145-172 | in every serial run without Subnet deletions, with arbitrary edits of claims, Bound claims that were bound in one pool carry equal CIDRs if and only if they were bound for the same cluster, and disjoint ones otherwise, each that of exactly one Subnet |
| `SerialRuns.UneditedIdempotent` | internal/controller/reconciler.go:145-172 | if moreover no claim's pool or cluster is edited, the same holds of the pool and cluster that the claims name, and every Bound claim is backed |
| `SerialRuns.BackedIffUnedited` | api/v1alpha1/subnetclaim_types.go:38-62 | under arbitrary edits, a Bound claim whose pool is the one it was bound in, or does not contain its CIDR, is backed by a Subnet if and only if it names the pool and the cluster it was bound with |
| `SerialRuns.EditBreaksIdempotency` | internal/controller/reconciler.go:57-82 | in every pool with distinct names and room for two blocks a run that edits the cluster ID of a Bound claim ends with two Bound claims of one pool and cluster with disjoint CIDRs |
| `SerialRuns.EditUnbacks` | internal/controller/reconciler.go:57-82 | after any run with two Bound claims bound in one pool for different clusters, giving one the spec of the other has that effect |
| `SerialRuns.BackedIffGiven` | api/v1alpha1/subnetclaim_types.go:38-62 | under arbitrary edits and without Subnet deletions, a Bound claim is backed if and only if at some step of the run the pool and cluster it names now were given its CIDR |
| `SerialRuns.MovedAndBacked` | api/v1alpha1/subnetclaim_types.go:38-62 | with two pools of one CIDR, an edited claim can be backed by a Subnet that it was not bound to |
| `SerialRuns.BoundSurvivesIff` | internal/controller/reconciler.go:299-308 | for a reconciliation whose list shows the Subnet of another one that has bound the claim, the binding survives if and only if the pool exists and the claim is valid, or the version it started from already carries that Error |
| `SerialRuns.LookupExact` | internal/controller/reconciler.go:114-143 | with distinct names, a claim that becomes Bound owns the Subnet of its CIDR if and only if no Subnet of another cluster is named like its cluster ID |
| `SerialRuns.HijackedLookup` | internal/controller/reconciler.go:115-138 | in every pool a run binds two claims with different cluster IDs to one CIDR |
| `SerialRuns.NameIsFree` | internal/controller/allocator.go:240-244 | with distinct names that of a fresh candidate is never taken, so a serial create never collides |
| `Hierarchy.HierarchySafe` | internal/controller/poolclaim_controller.go:120-216 | in every deletion-free serial run with current lists of pools, with arbitrary edits of claims and pool claims, a pool claim owns at most one child pool, and one internal claim unless a list of claims lags, a child's CIDR is that of the Subnet it was carved from, every Subnet lies in all pools its pool descends from, and Subnets under children carved for different clusters, or beside a child, are disjoint at any depth |
| `Hierarchy.ChildrenDisjoint` | internal/controller/poolclaim_controller.go:239-244 | if the cluster ID of internal claims is left alone, everything under different children of a pool is disjoint, however pool claims are edited |
| `Hierarchy.SiblingsDisjointIff` | internal/controller/poolclaim_controller.go:239-244 | two children carved out of one pool are disjoint if they were carved for different clusters, and equal otherwise |
| `Hierarchy.ChildOrigin` | internal/controller/poolclaim_controller.go:258-289 | in every run each child pool has the owner, the label and the carving that the move which created it gave it |
| `Hierarchy.LabelExact` | internal/controller/poolclaim_controller.go:258-276 | a child pool is carved from the pool its label names if and only if, when it was created, the pool claim named the pool its internal claim was bound in; set aside are labels that name another pool with the same addresses |
| `Hierarchy.UneditedLabels` | internal/controller/poolclaim_controller.go:239-276 | if neither parents nor internal claims' pools are edited, every child is carved from the pool its label names |
| `Hierarchy.EditedParentMislabels` | internal/controller/poolclaim_controller.go:258-276 | a legal run with an edit of the parent ends with a child labelled with a pool that has no Subnet |
| `Hierarchy.EditsStayOutside` | internal/controller/poolclaim_controller.go:126-147 | in every sequence of pool claim edits and reconciles all existing claims and Subnets stay as they are, and an owner of an internal claim that its list shows gets no other |
| `Hierarchy.TwinsShare` | internal/controller/poolclaim_controller.go:136-143 | in every such run, lagging lists of claims included, internal claims of one pool claim that were bound in one pool carry the same CIDR, if the cluster of internal claims is left alone |
| `Hierarchy.LateListTwins` | internal/controller/poolclaim_controller.go:184-203 | a run in which a lagging list of pools makes two child pools of one CIDR for one pool claim |
| `Hierarchy.TwinPoolsOverlap` | internal/controller/poolclaim_controller.go:184-203 | in two empty pools of one CIDR the first claims of different clusters are bound to the same block |
| `Hierarchy.SplitWorks` | internal/controller/poolclaim_controller.go:233-289 | a legal run that splits an empty pool: the child gets the first block of the desired size and the label of the parent, and the pool claim is bound to it |
| `Hierarchy.TurnKeepsInv` | internal/controller/poolclaim_controller.go:69-174 | every user action, every edit of a pool claim and every step of its reconciler preserves the invariant of the pool tree |
| `Hierarchy.PoolClaimMachine` | internal/controller/poolclaim_controller.go:69-117 | in every legal run each pool claim is new, or Bound to a pool that it owns without a message, or in Error with a message and bound to no pool, and never ahead of its generation |
| `Hierarchy.ErrorOrigin` | internal/controller/poolclaim_controller.go:219-231 | the Error of a pool claim was taken over, message included, from an internal claim of its own that was in Error at some step of the run, in the generation observed |
| `Hierarchy.FollowsInternalClaim` | internal/controller/poolclaim_controller.go:150-174 | a pool claim that is due takes over the Error of its internal claim, or is bound to a pool it owns, the new one if it had none, or waits; a lost update leaves it as it was |
| `Hierarchy.SettledPoolClaimStays` | internal/controller/poolclaim_controller.go:93-116 | a pool claim that is Bound, or in Error with its generation observed, is left alone |
| `Hierarchy.BoundPoolClaimStays` | internal/controller/poolclaim_controller.go:93-107 | the status of a Bound pool claim never changes again, whatever is edited or reconciled |
| `PoolClaimController.Controller.Reconcile` | internal/controller/poolclaim_controller.go:69-117 | the reconciler's in-place updates are a move of the pool tree |
| `PoolClaimController.Controller.ReconcilePendingClaim` | internal/controller/poolclaim_controller.go:120-174 | the pending step creates an internal claim only if none is owned, and otherwise follows that claim's phase |
| `PoolClaimController.Controller.ReconcileBoundClaim` | internal/controller/poolclaim_controller.go:177-216 | the bound step creates a child pool only if none is owned, and binds the pool claim to it |
| `PoolClaimController.Controller.GetOwned` | internal/controller/poolclaim_controller.go:312-357 | the loop collects exactly the listed objects that are owned by the UID |
| `PoolStatusLoop.ConvergedIffPending` | internal/controller/poolstatus_controller.go:382-417 | after any interleaving of Subnet events, pool deletions, queueing, snapshots, writes and failures, a quiescent pool whose CIDR was not edited since its last creation has the status calculated from its current Subnets if and only if at some moment since then it was queued, or taken but not yet read; set aside is a reconciliation that has read a former pool of that name |
| `PoolStatusLoop.ConvergesOncePending` | internal/controller/poolstatus_controller.go:58-217 | whatever happened before, once a pool is queued, or taken but not yet read, it is up to date whenever it is quiescent, until it is deleted or its CIDR edited |
| `PoolStatusLoop.RecreatedStaysEmpty` | internal/controller/pool_gauge_watcher.go:36-76 | a quiescent pool that is deleted and created again is quiescent with an empty status |
| `PoolStatusLoop.EditedUpToDateIff` | internal/controller/poolstatus_controller.go:382-394 | an edit of the CIDR leaves the status as it is, which is up to date if and only if the formula gives the same free count for both CIDRs |
| `PoolStatusLoop.ConvergesAfterEvent` | internal/controller/poolstatus_controller.go:227-285 | after a Subnet event of an existing pool it is up to date whenever it is quiescent again, until it is deleted or its CIDR edited |
| `PoolStatusLoop.EventsQueueExactly` | internal/controller/poolstatus_controller.go:227-285 | a Subnet event queues exactly the pools the Subnet names before and after it, and none for an empty name |
| `PoolStatusLoop.LatePoolStaysEmpty` | internal/controller/pool_gauge_watcher.go:36-88 | a pool created after its Subnet was processed is quiescent with an empty status |
| `PoolStatusLoop.ListSubnetsPaged` | internal/controller/pager.go:54-93 | for every page limit and every split into pages the result is the whole snapshot, unless a request fails |
| `PoolStatusLoop.PoolObject.Reconcile` | internal/controller/poolstatus_controller.go:58-217 | the status becomes the one calculated from the snapshot or stays as it is; a changed status is patched, and the reply to the first patch without a conflict, or to the fifth, decides |
| `StatusCalc.CheapAgainstWide` | internal/controller/statuscalc/statuscalc.go:102-127 | for disjoint allocations of /24 or wider the formula is at least the bitmap's count, and equal if and only if all are /24 |
| `StatusCalc.CheapAgainstNarrow` | internal/controller/statuscalc/statuscalc.go:102-127 | for allocations of /24 or narrower, overlapping or not, the formula is at most the bitmap's count |
| `StatusCalc.NarrowExact` | internal/controller/bitmap.go:161-190 | for allocations of /24 or narrower, overlapping or not, the bitmap's count is the number of /24 blocks less the number of different ones the allocations fall into |
| `StatusCalc.CheapExactIffSpread` | internal/controller/statuscalc/statuscalc.go:114-118 | for such allocations the formula is exact if and only if they fall into as many /24 blocks as there are allocations, or into all of the pool |
| `StatusCalc.Calculate` | internal/controller/statuscalc/statuscalc.go:67-130 | count; both free-count keys, for IPv6 pools the cap of one million or zero; the CIDR map has exactly the CIDRs of the list and the children, each with the cluster ID of its last entry, and children marked as such |
| `StatusCalc.ByCidrExact` | internal/controller/statuscalc/statuscalc.go:83-85 | a CIDR is in the map if and only if some entry has it, with the cluster ID of the last one |
| `PoolStatusLoop.UpToDateMeans` | internal/controller/poolstatus_controller.go:107-124 | the map of an up-to-date pool has exactly the CIDRs of its Subnets, and if these are different each Subnet's with its own cluster ID |
| `StatusCalc.CalculatePoolStatus` | internal/controller/bitmap.go:194-232 | the count is that of the distinct CIDRs starting in the pool, overlapping or not; the free counts are those of the list marked in order |
| `StatusCalc.StatusInvariant` | internal/controller/bitmap.go:201-226 | the free counts are invariant under permutation and repetition of a list whose CIDRs tile one another |
| `MarkOrder.OrderIndependentIffTiled` | internal/controller/allocator.go:510-515 | the bitmap is the same for every marking order if and only if every used CIDR that strictly contains others is covered by them |
| `MarkOrder.UnionIffTiled` | internal/controller/bitmap.go:77-105 | marking yields the union of the ranges in every order under exactly that condition |
| `Allocator.FirstFit` | internal/controller/allocator.go:503-524 | over a tiled used set the answer in any order is the lowest block meeting no used CIDR that starts in the pool, or exhaustion when every block meets one |
| `Allocator.FoundIsDisjoint` | internal/controller/allocator.go:517-523 | over a tiled used set the block found is aligned, inside the pool, and disjoint from all used CIDRs if and only if none straddles the pool's start |
| `Allocator.NestedAnswerOverlaps` | internal/controller/allocator.go:510-523 | in every pool and for every size, a block and its lower half in use, visited from the inside out, make the search answer the upper half |
| `Allocator.StraddlingOverlooked` | internal/controller/bitmap.go:235-245 | with 10.0.0.0/8 in use the pool 10.1.0.0/16 offers a block of it |
| `MarkOrder.NestedOrderMatters` | internal/controller/allocator.go:511-515 | with 10.0.0.0/24 and 10.0.0.0/25 in use the two map orders give different bitmaps |
| `Allocator.FindAvailableCIDR` | internal/controller/allocator.go:503-524 | the answer is that of the bitmap on which the used CIDRs were marked in some order, each once, failures ignored |
| `Allocator.Capacity` | internal/controller/allocator.go:391-406 | from an empty pool every run of allocations at one size yields the blocks in address order, exactly 2^(size - prefix) of them, and then an error classified as exhausted |
| `Allocator.SameAnswerIffClear` | internal/controller/allocator.go:510-523 | adding to a tiled used set, such that it stays tiled, leaves the answer the same if and only if the old answer meets none of the CIDRs that start in the pool |
| `Allocator.RequestedExact` | internal/controller/allocator.go:353-388 | a requested CIDR is accepted if and only if its whole range is inside the pool and meets no existing allocation |
| `Allocator.CandidateShape` | internal/controller/allocator.go:311-349 | from any lists, a candidate lies in the pool, a dynamic one is an aligned block of the claim's size, and a refusal is never a conflict |
| `Allocator.SizeRules` | internal/controller/allocator.go:328-334 | a dynamic claim gets the block size it asks for; without one its result is that of asking for the pool's default, and without a default that of asking for 24; never outside 16 to 28 |
| `AllocationLoop.AllocateCIDR` | internal/controller/allocator.go:165-267 | for every behaviour of the server, pool edits between retries included, the call is a run of protocol steps of one allocator, each retry with pool and list read again, with the same outcome and the same Subnets; at most fifty create requests, at most one success, which ends the call, and never a conflict error; undisturbed it is `SerialAllocate` |
| `AllocationLoop.QuietCall` | internal/controller/allocator.go:165-267 | such a run on an undisturbed server with the current list has a result of `SerialAllocate` |
| `Retries.OneRefreshEnough` | internal/controller/allocator.go:213-263 | in a pool whose blocks have one size, a call with a list of any age on a calm server gets a new Subnet, inside the pool and disjoint from all current ones, if and only if some block is neither listed nor current; otherwise it reports exhaustion and creates nothing |
| `Protocol.FiftyAttempts` | internal/controller/allocator.go:203-225 | after a conflict there is another attempt from the refreshed list exactly up to attempt 49, counted from 0 |
| `AllocationLoop.CreateAllocation` | internal/controller/allocator.go:409-490 | the outcome and the store for every reply: created, taken by the same cluster, taken by another, failed |
| `AllocationLoop.RefreshAllocationList` | internal/controller/allocator.go:282-308 | a failed list request keeps list and used CIDRs; otherwise the new CIDRs are added |
| `Claims.ProcessClaim` | internal/controller/reconciler.go:51-256 | for every behaviour of the servers at most fifty create requests and one success, although the loop allows sixty-five rounds, and the latest version of the claim keeps its status or gets a consistent Bound or Error status of its generation; against an undisturbed API server it is the status of `Reconcile`, written over that version |
| `Claims.Undisturbed` | internal/controller/reconciler.go:51-256 | if nobody else writes the claim either, the result is that of `Reconcile` |
| `Claims.ClaimServer.UpdateClaimStatus` | internal/controller/reconciler.go:262-378 | the whole status is written over the latest version of the claim, or none of it; the update ends with the first reply that is neither a conflict nor not-found, or after five conflicts in a row or four not-founds, with at most twenty requests; a Bound status written by others survives if and only if nothing is written, or Bound with the same CIDR |
| `Claims.ValidClaimExact` | internal/controller/reconciler.go:381-427 | a claim is valid if and only if the sizes it names respect the pool's limits and its requested CIDR starts in the pool |
| `Bitmap.CIDRMap.AllocateNextAvailable` | internal/controller/bitmap.go:108-158 | refuses sizes outside 16 to 28, succeeds if and only if the free count of the size is positive, returns the lowest free aligned block, sets exactly its bits, and its inner marking never fails |
| `Bitmap.CIDRMap.MarkAllocated` | internal/controller/bitmap.go:77-105 | all bits of the CIDR are set or none, with the reason: malformed, not in the pool, or overlapping |
| `Bitmap.CIDRMap.GetFreeBlockCount` | internal/controller/bitmap.go:161-190 | the number of free aligned blocks for each size from 16 to 28 |
| `Bitmap.NewCIDRMap` | internal/controller/bitmap.go:43-74 | an empty map for IPv4 prefixes 12 to 28, otherwise the matching error |
| `Bitmap.FirstFreeIffCount` | internal/controller/bitmap.go:120-132 | the search finds a block if and only if the count is positive |
| `Bitmap.CIDRMap.GetBitRange` | internal/controller/bitmap.go:248-261 | for a CIDR that starts in the pool the borrow-free byte loop yields its offset from the base, and its size |
| `Counting.AllocationAccounting` | internal/controller/bitmap.go:108-190 | a successful allocation at size s lowers the count at s by 1, at each t > s by 2^(t-s), and at each t < s by 0 or 1 |
| `Counting.FreeCountDoubles` | internal/controller/bitmap.go:161-190 | in every state a size has at least twice as many free blocks as the next larger one |
| `Bytes.AddIsAddition` | internal/controller/bitmap.go:134-143 | the carry-free byte addition is integer addition and no byte wraps, for an aligned base and an offset inside the block |
| `Bytes.SubIsSubtraction` | internal/controller/bitmap.go:251-255 | the borrow-free byte subtraction is integer subtraction inside an aligned block |
| `Bytes.SubUndoesAdd` | internal/controller/bitmap.go:134-143 | the subtraction recovers the offset of the addition for every base |
| `NetUtil.OverlapExact` | internal/netutil/netutil.go:37-82 | the test holds if and only if both parse, are of one family, and share an address; it is symmetric; the last-address clause never changes the answer |
| `NetUtil.OverlapMissesMapped` | internal/netutil/netutil.go:58-66 | two IPv6 networks that share addresses and are reported as not overlapping |
| `NetUtil.CalculateLastIP` | internal/netutil/netutil.go:92-136 | the byte loop yields network + 2^hostBits - 1 for every prefix length and both address widths |
| `Names.NameText` | internal/controller/allocator.go:98-130 | a name is the pool, the four address bytes and the prefix length as decimal numerals without leading zeros, joined by dashes, if that has at most 63 characters, and otherwise the first 40 characters of the pool and the first eight bytes of the digest of that text in hex |
| `Names.DecimalReads` | internal/controller/allocator.go:98-111 | the decimal text of a number reads back as that number, without a leading zero |
| `Names.HexReads` | internal/controller/allocator.go:113-117 | the hex text of a byte sequence reads back as its bytes in order |
| `Names.NameLength` | internal/controller/allocator.go:98-130 | names have at most 63 characters, pool names of at most 44 are never hashed, and a hashed name has exactly 57 |
| `Names.ShortNameInjective` | internal/controller/allocator.go:101-111 | the short form determines pool and CIDR |
| `Names.ShortNeverHashed` | internal/controller/allocator.go:113-129 | no short name equals a hashed one, whatever SHA-1 returns |
| `Names.UuidNeverEncoded` | internal/controller/poolclaim_controller.go:239-244 | the UID used as cluster ID of an internal claim is never an encoded name |
| `Cidrs.Laminar` | internal/netutil/netutil.go:68-81 | two CIDR ranges are disjoint or nested, the longer prefix inside |
| `Cidrs.ContainsIsMembership` | internal/controller/bitmap.go:235-245 | masking an address gives the network address if and only if the address is in the range |

## Left out

- IPv6 and IPv4-mapped addresses in the bitmap and in claims: the code refuses IPv6 pools; only `NetUtil` covers both widths.
- CIDR text parsing: two spellings of one prefix length (`/24` and `/024`) are not told apart; host bits are kept.
- Backoff, jitter, sleeps and clocks: they change delays only.
- Classification of errors by message text: modelled on error constructors, one per message.
- Metrics, gauges, events, logging, labels other than a child pool's parent label, finalizers, claim references, manager setup.
- Subnet phase patching and the parent requeue of the Subnet reconciler: a requeue is the event `Nudge`.
- The `Buddy` strategy: `spec.strategy` is never read.
- Deletion of pool claims, internal claims and child pools, and what garbage collection then removes.
- Pools that are deleted while they have Subnets, or get a CIDR that does not contain them: the safety theorems exclude them, `ClaimStateMachine` does not.
- Requested IPv6 CIDRs in IPv6 pools: `validateRequestedCIDR` is modelled for IPv4 and refuses the rest.
- StaleRaces.StaleSafeIff: assumes distinct names for the CIDRs of the pool, since nothing is assumed of SHA-1 that would rule out equal hashes.
- StaleRaces.StaleSafeIffOneSize: speaks of dynamic claims only, and assumes such names; `StaleSafeIff` covers requested CIDRs.
- Replicas.RepeatsHarmlessIff: assumes such names; some of its failing runs contain a request that fails, those of `StaleTwins` do not.
- Protocol.StaleReportsExclusive: assumes distinct names for the CIDRs of all pools, for the same reason.
- Protocol.StaleRunsSafe: the pools themselves do not change during a run of the interleaving model; they do in `AllocationLoop`.
- Protocol.RepeatsIffClear: speaks of dynamic claims, of used CIDRs that tile one another, before and after the list request, and of an allocator with retries left.
- Protocol.OldNewsRepeats: speaks of dynamic claims and used CIDRs that tile one another.
- Retries.OneRefreshEnough: speaks of dynamic claims in pools whose blocks have the size of the claim; with mixed sizes an old list leads to overlaps, as `RaceOverlaps` shows.
- SerialRuns.Idempotent: assumes distinct names, and cluster IDs that are not encoded names.
- SerialRuns.BoundIffServable: assumes distinct names, and a cluster ID that names no Subnet.
- SerialRuns.LookupExact: assumes distinct names.
- SerialRuns.BackedIffUnedited: says nothing of claims edited to another pool that contains the CIDR; `BackedIffGiven` does.
- SerialRuns.BoundSurvivesIff: supposes that the Subnet of the other reconciliation is in the list of this one; older lists are the matter of `SameLaterIff`.
- Hierarchy.LabelExact: says nothing of a label that names another pool which contains the CIDR, where the cluster may hold it by coincidence.
- Hierarchy.HierarchySafe: assumes distinct names, fresh UUIDs for pool claims, and current lists of pools (not of claims), as do the other results on runs of the pool tree.
- PoolStatusLoop.ConvergedIffPending: assumes that a reconciliation reads the current pool; a lagging read whose status happens to equal the new one would skip the patch.
- PoolStatusLoop.ListSubnetsPaged: assumes that the pages of one list come from one snapshot.
- Claims.ProcessClaim: the branch that follows a conflict error is not modelled; it is proved unreachable.
