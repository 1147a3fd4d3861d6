/** The pool status controller: Subnet events queue the pool, a reconciliation snapshots its Subnets by a paged
    list, and writes the calculated status. */
module PoolStatusLoop {
  import opened Cidrs
  import opened Allocator
  import Protocol
  import opened StatusCalc

  // ---------------------------------------------------------------- one reconciliation

  /** `listSubnetsPaged` on a consistent snapshot: whatever the page limit, and however many items below it the server
      puts on each page, the pages add up to the snapshot; `fails` says which requests fail. */
  method ListSubnetsPaged<T>(snapshot: seq<T>, limit: nat, pageLength: nat -> nat, fails: nat -> bool)
    returns (r: Option<seq<T>>)
    requires limit > 0 && forall i :: 1 <= pageLength(i) <= limit
    ensures r.Some? ==> r.value == snapshot
    ensures (forall i :: !fails(i)) ==> r.Some?
  {
    var all: seq<T> := [];
    var offset, pageCount := 0, 0;
    while true
      invariant 0 <= offset <= |snapshot| && all == snapshot[..offset]
      decreases |snapshot| - offset
    {
      if fails(pageCount) { return None; }
      var end := offset + pageLength(pageCount);
      var last := end >= |snapshot|;
      var page := if last then snapshot[offset..] else snapshot[offset..end];
      pageCount := pageCount + 1;
      all := all + page;
      if last { return Some(all); }
      offset := end;
    }
  }

  const PATCH_STEPS: nat := 5

  datatype PatchReply = Patched | Gone | PatchConflict | PatchFailed

  /** The reply to patch `i`. */
  function ReplyIn(replies: seq<PatchReply>, i: nat): PatchReply {
    if i < |replies| then replies[i] else Patched
  }

  /** Patches `a` to `b`: all but the last met a conflict, and the last one did so only if it was the fifth; its reply
      decides whether the update fails. */
  predicate Retried(replies: seq<PatchReply>, a: nat, b: nat, failed: bool) {
    && a < b <= a + 5 && (forall i :: a <= i < b - 1 ==> ReplyIn(replies, i).PatchConflict?)
    && (ReplyIn(replies, b - 1).PatchConflict? ==> b == a + 5)
    && (failed <==> ReplyIn(replies, b - 1).PatchConflict? || ReplyIn(replies, b - 1).PatchFailed?)
  }

  /** A pool with its status, the replies to all patches, and the number of patches so far. */
  class PoolObject {
    const cidr: Cidr
    const replies: seq<PatchReply>
    var status: Option<CalcResult>
    var patches: nat

    constructor (cidr: Cidr, replies: seq<PatchReply>)
      ensures this.cidr == cidr && status == None && this.replies == replies && patches == 0
    {
      this.cidr, status, this.replies, patches := cidr, None, replies, 0;
    }

    method Patch(result: CalcResult) returns (r: PatchReply)
      modifies this
      ensures patches == old(patches) + 1 && r == ReplyIn(replies, old(patches))
      ensures status == if r.Patched? then Some(result) else old(status)
    {
      r := ReplyIn(replies, patches);
      patches := patches + 1;
      if r.Patched? { status := Some(result); }
    }

    /** The conflict-retry loop: it goes on after a conflict, for at most five patches, and the reply to the last one
        decides; the status is replaced as a whole or not at all. */
    method PatchWithRetry(result: CalcResult) returns (failed: bool)
      modifies this
      ensures Retried(replies, old(patches), patches, failed)
      ensures status == if ReplyIn(replies, patches - 1).Patched? then Some(result) else old(status)
    {
      for step := 0 to PATCH_STEPS
        invariant patches == old(patches) + step && status == old(status)
        invariant forall i :: old(patches) <= i < patches ==> ReplyIn(replies, i).PatchConflict?
      {
        var r := Patch(result);
        match r {
          case Patched => return false;
          case Gone => return false;
          case PatchConflict =>
          case PatchFailed => return true;
        }
      }
      return true;
    }

    /** `PoolStatusReconciler.Reconcile` for an existing pool. When it succeeds, and the pool was not deleted under it,
        the status is the one calculated from the snapshot, for every page size; if it differs from the one before, it
        is patched, and a conflict is not the end before the fifth. */
    method Reconcile(snapshot: seq<Subnet>, limit: nat, pageLength: nat -> nat, fails: nat -> bool)
      returns (failed: bool)
      requires limit > 0 && forall i :: 1 <= pageLength(i) <= limit
      modifies this
      ensures status == old(status) || status == StatusOf(cidr, snapshot)
      ensures !failed && (patches > old(patches) ==> !ReplyIn(replies, patches - 1).Gone?) ==>
                status.Some? && status == StatusOf(cidr, snapshot)
      ensures (forall i :: !fails(i)) && Parses(cidr) ==>
                if old(status) == StatusOf(cidr, snapshot) then patches == old(patches) && !failed
                else Retried(replies, old(patches), patches, failed)
      ensures !Parses(cidr) || !failed || patches > old(patches) || exists i :: fails(i)
      ensures !Parses(cidr) ==> failed && patches == old(patches)
    {
      var subnets := ListSubnetsPaged(snapshot, limit, pageLength, fails);
      if subnets.None? { return true; }
      var computed := Calculate(cidr, subnets.value, []);
      if computed.None? { return true; }
      if status == Some(computed.value) { return false; }
      failed := PatchWithRetry(computed.value);
    }
  }

  // ---------------------------------------------------------------- the event loop

  /** Where the reconciliation of a pool stands: taken from the queue; pool read, with the CIDR and the status seen
      then; Subnets listed and status calculated. */
  datatype Work =
    | Started
    | Fetched(cidr: Cidr, seen: Option<CalcResult>)
    | Loaded(cidr: Cidr, seen: Option<CalcResult>, result: CalcResult)

  /** `queue` is the deduplicating work queue and `active` the keys being processed. A pool that was never written has
      no status. */
  datatype Loop = Loop(
    store: Protocol.Store, pools: map<string, Cidr>, status: map<string, Option<CalcResult>>,
    queue: set<string>, active: map<string, Work>)

  datatype Happening =
    | NewPool(pool: string, cidr: Cidr)
    | DropPool(pool: string)
    | SetCidr(pool: string, cidr: Cidr)
    | PutSubnet(name: string, subnet: Subnet)
    | DropSubnet(name: string)
    | Nudge(pool: string)
    | Take(pool: string)
    | Fetch(pool: string)
    | Load(pool: string, names: seq<string>)
    | Finish(pool: string)
    | Fail(pool: string)

  const IDLE: Loop := Loop(map[], map[], map[], {}, map[])

  /** `mapAllocToPool`: the request for a Subnet event. */
  function Requests(poolRef: string): set<string> {
    if poolRef == "" then {} else {poolRef}
  }

  function RequestsOf(store: Protocol.Store, name: string): set<string> {
    if name in store then Requests(store[name].poolRef) else {}
  }

  /** `names` is the order in which a list yields the Subnets of the pool. */
  predicate Listing(names: seq<string>, store: Protocol.Store, pool: string) {
    && (forall n :: n in names ==> n in store && store[n].poolRef == pool)
    && (forall n :: n in store && store[n].poolRef == pool ==> n in names)
    && forall i, j :: 0 <= i < j < |names| ==> names[i] != names[j]
  }

  function Items(names: seq<string>, store: Protocol.Store): seq<Subnet>
    requires forall n :: n in names ==> n in store
  {
    seq(|names|, i requires 0 <= i < |names| => store[names[i]])
  }

  /** Creation, deletion and edits of a pool request nothing. */
  function Next(l: Loop, h: Happening): Loop {
    match h
    case NewPool(p, cidr) =>
      if p in l.pools then l else l.(pools := l.pools[p := cidr], status := l.status[p := None])
    case DropPool(p) => l.(pools := l.pools - {p}, status := l.status - {p})
    case SetCidr(p, cidr) => if p !in l.pools then l else l.(pools := l.pools[p := cidr])
    case PutSubnet(n, s) =>
      l.(store := l.store[n := s], queue := l.queue + RequestsOf(l.store, n) + Requests(s.poolRef))
    case DropSubnet(n) =>
      l.(store := l.store - {n}, queue := l.queue + RequestsOf(l.store, n))
    case Nudge(p) => l.(queue := l.queue + {p})
    case Take(p) =>
      if p !in l.queue || p in l.active then l else l.(queue := l.queue - {p}, active := l.active[p := Started])
    case Fetch(p) =>
      if p !in l.active || !l.active[p].Started? then l
      else if p !in l.pools || p !in l.status then l.(active := l.active - {p})
      else l.(active := l.active[p := Fetched(l.pools[p], l.status[p])])
    case Load(p, names) =>
      if p !in l.active || !l.active[p].Fetched? || !Listing(names, l.store, p) then l
      else
        var computed := StatusOf(l.active[p].cidr, Items(names, l.store));
        if computed.None? then l.(active := l.active - {p}, queue := l.queue + {p})
        else l.(active := l.active[p := Loaded(l.active[p].cidr, l.active[p].seen, computed.value)])
    case Finish(p) =>
      if p !in l.active || !l.active[p].Loaded? then l
      else if l.active[p].seen == Some(l.active[p].result) || p !in l.pools then l.(active := l.active - {p})
      else l.(active := l.active - {p}, status := l.status[p := Some(l.active[p].result)])
    case Fail(p) =>
      if p !in l.active then l else l.(active := l.active - {p}, queue := l.queue + {p})
  }

  function Run(l: Loop, hs: seq<Happening>): Loop {
    if hs == [] then l else Next(Run(l, hs[..|hs| - 1]), hs[|hs| - 1])
  }

  lemma {:induction false} RunSplit(l: Loop, a: seq<Happening>, b: seq<Happening>)
    ensures Run(l, a + b) == Run(Run(l, a), b)
  {
    if b == [] {
      assert a + b == a;
    } else {
      RunSplit(l, a, b[..|b| - 1]);
      assert (a + b)[..|a + b| - 1] == a + b[..|b| - 1];
    }
  }

  lemma RunOne(l: Loop, a: seq<Happening>, h: Happening)
    ensures Run(l, a + [h]) == Next(Run(l, a), h)
  {
    assert (a + [h])[..|a|] == a;
  }

  // ---------------------------------------------------------------- convergence

  /** The status is what `Calculate` gives for the current Subnets of the pool. */
  ghost predicate Current(store: Protocol.Store, pool: string, cidr: Cidr, status: Option<CalcResult>) {
    status.Some? && exists names :: Listing(names, store, pool) && status == StatusOf(cidr, Items(names, store))
  }

  ghost predicate UpToDate(l: Loop, p: string) {
    p in l.pools && p in l.status && Current(l.store, p, l.pools[p], l.status[p])
  }

  /** The Subnets of the pool have different CIDRs. */
  predicate DistinctCidrs(store: Protocol.Store, p: string) {
    forall n, m :: n in store && m in store && n != m && store[n].poolRef == p && store[m].poolRef == p ==>
      store[n].cidr != store[m].cidr
  }

  /** What a pool that is up to date reports: its CIDR map has the CIDRs of its Subnets and no others, each with the
      cluster of a Subnet that has it, so that for Subnets with different CIDRs every one is there with its own. */
  lemma UpToDateMeans(l: Loop, p: string)
    requires UpToDate(l, p)
    ensures var m := l.status[p].value.allocatedCIDRs;
            && (forall c :: c in m <==> exists n :: n in l.store && l.store[n].poolRef == p && l.store[n].cidr == c)
            && (DistinctCidrs(l.store, p) ==>
                  forall n :: n in l.store && l.store[n].poolRef == p ==> m[l.store[n].cidr] == l.store[n].clusterID)
  {
    var names :| Listing(names, l.store, p) && l.status[p] == StatusOf(l.pools[p], Items(names, l.store));
    var items, m := Items(names, l.store), l.status[p].value.allocatedCIDRs;
    forall c ensures c in m <==> exists n :: n in l.store && l.store[n].poolRef == p && l.store[n].cidr == c {
      ByCidrExact(items, c);
      if c in m {
        var i :| 0 <= i < |items| && items[i].cidr == c;
        assert names[i] in names;
      }
      if n :| n in l.store && l.store[n].poolRef == p && l.store[n].cidr == c {
        var i :| 0 <= i < |names| && names[i] == n;
        assert items[i] in items;
      }
    }
    if DistinctCidrs(l.store, p) {
      forall n | n in l.store && l.store[n].poolRef == p ensures m[l.store[n].cidr] == l.store[n].clusterID {
        OwnEntry(l.store, p, names, n);
      }
    }
  }

  lemma OwnEntry(store: Protocol.Store, p: string, names: seq<string>, n: string)
    requires Listing(names, store, p) && DistinctCidrs(store, p) && n in store && store[n].poolRef == p
    ensures var m := ByCidr(Items(names, store));
            store[n].cidr in m && m[store[n].cidr] == store[n].clusterID
  {
    var items, c := Items(names, store), store[n].cidr;
    var i: nat :| i < |names| && names[i] == n;
    forall j | i < j < |items| ensures items[j].cidr != c {
      assert names[j] in names && names[j] != names[i];
    }
    assert IsLast(items, c, i);
    ByCidrExact(items, c);
  }

  predicate Quiescent(l: Loop, p: string) {
    p !in l.queue && p !in l.active
  }

  /** The pool exists and is queued, or taken from the queue but not yet read. */
  predicate Pending(l: Loop, p: string) {
    p in l.pools && (p in l.queue || (p in l.active && l.active[p].Started?))
  }

  ghost predicate TablesOk(l: Loop) {
    l.pools.Keys == l.status.Keys
  }

  /** The pool is up to date, or the reconciliation in progress will make it so, or another one is to follow. */
  ghost predicate OnTheWay(l: Loop, p: string) {
    && p in l.pools && p in l.status
    && (p !in l.queue ==>
          if p !in l.active then Current(l.store, p, l.pools[p], l.status[p])
          else
            match l.active[p]
            case Started => true
            case Fetched(cidr, seen) => cidr == l.pools[p] && seen == l.status[p]
            case Loaded(cidr, seen, result) =>
              cidr == l.pools[p] && seen == l.status[p] && Current(l.store, p, cidr, Some(result)))
  }

  /** The happening neither deletes the pool nor edits its CIDR. */
  predicate Leaves(h: Happening, p: string) {
    h != DropPool(p) && !(h.SetCidr? && h.pool == p)
  }

  /** A change that requests no reconciliation of `p` leaves the Subnets of `p` as they are. */
  lemma CurrentKept(store: Protocol.Store, store': Protocol.Store, p: string, cidr: Cidr, status: Option<CalcResult>)
    requires Current(store, p, cidr, status)
    requires forall n :: (n in store && store[n].poolRef == p) || (n in store' && store'[n].poolRef == p) ==>
               n in store && n in store' && store[n] == store'[n]
    ensures Current(store', p, cidr, status)
  {
    var names :| Listing(names, store, p) && status == StatusOf(cidr, Items(names, store));
    assert Listing(names, store', p);
    assert Items(names, store') == Items(names, store);
  }

  lemma StoreChange(l: Loop, p: string, store': Protocol.Store, queue': set<string>)
    requires OnTheWay(l, p) && l.queue <= queue'
    requires p !in queue' ==>
               forall n :: (n in l.store && l.store[n].poolRef == p) || (n in store' && store'[n].poolRef == p) ==>
                 n in l.store && n in store' && l.store[n] == store'[n]
    ensures OnTheWay(l.(store := store', queue := queue'), p)
  {
    if p !in queue' {
      if p !in l.active { CurrentKept(l.store, store', p, l.pools[p], l.status[p]); }
      if p in l.active && l.active[p].Loaded? {
        CurrentKept(l.store, store', p, l.pools[p], Some(l.active[p].result));
      }
    }
  }

  lemma NextKeepsWay(l: Loop, h: Happening, p: string)
    requires p != "" && OnTheWay(l, p) && Leaves(h, p)
    ensures OnTheWay(Next(l, h), p)
  {
    match h
    case PutSubnet(n, s) => StoreChange(l, p, Next(l, h).store, Next(l, h).queue);
    case DropSubnet(n) => StoreChange(l, p, Next(l, h).store, Next(l, h).queue);
    case Load(q, names) =>
      if q == p && q in l.active && l.active[q].Fetched? && Listing(names, l.store, p) {
        var cidr := l.active[p].cidr;
        assert StatusOf(cidr, Items(names, l.store)).Some? ==>
            Current(l.store, p, cidr, StatusOf(cidr, Items(names, l.store)));
      }
    case _ =>
  }

  lemma {:induction false} RunKeepsWay(l: Loop, hs: seq<Happening>, p: string)
    requires p != "" && OnTheWay(l, p) && forall h :: h in hs ==> Leaves(h, p)
    ensures OnTheWay(Run(l, hs), p)
  {
    if hs != [] {
      RunKeepsWay(l, hs[..|hs| - 1], p);
      NextKeepsWay(Run(l, hs[..|hs| - 1]), hs[|hs| - 1], p);
    }
  }

  lemma {:induction false} RunKeepsTables(hs: seq<Happening>)
    ensures TablesOk(Run(IDLE, hs))
  {
    if hs != [] { RunKeepsTables(hs[..|hs| - 1]); }
  }

  /** Level-triggered convergence: whatever happened before, if the pool is queued, or taken but not yet read, then
      after any interleaving that does not delete it or edit its CIDR it is up to date whenever it is quiescent. */
  lemma ConvergesOncePending(before: seq<Happening>, after: seq<Happening>, p: string)
    requires p != "" && Pending(Run(IDLE, before), p) && forall h :: h in after ==> Leaves(h, p)
    ensures var l := Run(IDLE, before + after); Quiescent(l, p) ==> UpToDate(l, p)
  {
    RunKeepsTables(before);
    RunKeepsWay(Run(IDLE, before), after, p);
    RunSplit(IDLE, before, after);
  }

  /** The pool exists without a status, and nothing is under way. */
  predicate Dormant(l: Loop, p: string) {
    p in l.pools && p in l.status && l.status[p] == None && Quiescent(l, p)
  }

  lemma NextDormant(l: Loop, h: Happening, p: string)
    requires Dormant(l, p) && Leaves(h, p) && !Pending(Next(l, h), p)
    ensures Dormant(Next(l, h), p)
  {}

  lemma {:induction false} StaysDormant(l: Loop, hs: seq<Happening>, p: string)
    requires Dormant(l, p) && forall h :: h in hs ==> Leaves(h, p)
    requires forall k :: 0 <= k <= |hs| ==> !Pending(Run(l, hs[..k]), p)
    ensures Dormant(Run(l, hs), p)
  {
    if hs != [] {
      var n := |hs| - 1;
      assert forall k :: 0 <= k <= n ==> hs[..n][..k] == hs[..k];
      StaysDormant(l, hs[..n], p);
      assert hs[..|hs|] == hs;
      NextDormant(Run(l, hs[..n]), hs[n], p);
    }
  }

  /** Since its creation the pool was queued, or taken but not yet read, at some moment. */
  ghost predicate PendingSince(l: Loop, after: seq<Happening>, p: string) {
    exists k :: 0 <= k <= |after| && Pending(Run(l, after[..k]), p)
  }

  lemma SoonerOrLater(before: seq<Happening>, after: seq<Happening>, p: string)
    requires p != "" && PendingSince(Run(IDLE, before), after, p) && forall h :: h in after ==> Leaves(h, p)
    ensures var l := Run(IDLE, before + after); Quiescent(l, p) ==> UpToDate(l, p)
  {
    var k :| 0 <= k <= |after| && Pending(Run(Run(IDLE, before), after[..k]), p);
    var first, rest := TakeDrop(before, after, k);
    RunSplit(IDLE, before, first);
    ConvergesOncePending(before + first, rest, p);
  }

  lemma TakeDrop<T>(before: seq<T>, after: seq<T>, k: nat) returns (first: seq<T>, rest: seq<T>)
    requires k <= |after|
    ensures first == after[..k] && before + after == before + first + rest
    ensures forall x :: x in rest ==> x in after
  {
    first, rest := after[..k], after[k..];
  }

  /** Exactly when a pool is up to date: let `created` be the run up to its last creation, with no reconciliation of a
      former pool of that name that has been read already, and let its CIDR not be edited since. When the pool is
      quiescent, its status is the one calculated from its current Subnets if and only if at some moment since its
      creation it was queued, or taken but not yet read. */
  lemma ConvergedIffPending(before: seq<Happening>, cidr: Cidr, after: seq<Happening>, p: string)
    requires p != "" && p !in Run(IDLE, before).pools && forall h :: h in after ==> Leaves(h, p)
    requires p in Run(IDLE, before).active ==> Run(IDLE, before).active[p].Started?
    ensures var created := before + [NewPool(p, cidr)];
            var l := Run(IDLE, created + after);
            Quiescent(l, p) ==> (UpToDate(l, p) <==> PendingSince(Run(IDLE, created), after, p))
  {
    var created := before + [NewPool(p, cidr)];
    var l := Run(IDLE, created);
    if PendingSince(l, after, p) {
      SoonerOrLater(created, after, p);
    } else {
      RunOne(IDLE, before, NewPool(p, cidr));
      assert after[..0] == [] && !Pending(Run(l, after[..0]), p);
      StaysDormant(l, after, p);
      RunSplit(IDLE, created, after);
    }
  }

  /** A pool that is deleted and created again while its Subnets stay keeps an empty status, however often the former
      pool was processed. */
  lemma RecreatedStaysEmpty(before: seq<Happening>, p: string, cidr: Cidr)
    requires Quiescent(Run(IDLE, before), p)
    ensures var l := Run(IDLE, before + [DropPool(p)] + [NewPool(p, cidr)]);
            Dormant(l, p) && !UpToDate(l, p)
  {
    RunOne(IDLE, before, DropPool(p));
    RunOne(IDLE, before + [DropPool(p)], NewPool(p, cidr));
  }

  /** A pool that is up to date and gets another CIDR stays so exactly if the formula gives the same number of free
      blocks for both CIDRs. */
  lemma EditedUpToDateIff(before: seq<Happening>, p: string, cidr: Cidr)
    requires Quiescent(Run(IDLE, before), p) && UpToDate(Run(IDLE, before), p)
    ensures var was, l := Run(IDLE, before), Run(IDLE, before + [SetCidr(p, cidr)]);
            && Quiescent(l, p) && l.status == was.status && Parses(was.pools[p])
            && (UpToDate(l, p) <==>
                var n := was.status[p].value.allocatedCount;
                Parses(cidr) && CheapFree(cidr, n) == CheapFree(was.pools[p], n))
  {
    RunOne(IDLE, before, SetCidr(p, cidr));
    var was := Run(IDLE, before);
    CurrentForBoth(was.store, p, was.pools[p], cidr, was.status[p]);
  }

  lemma CurrentForBoth(store: Protocol.Store, p: string, cidr: Cidr, cidr': Cidr, status: Option<CalcResult>)
    requires Current(store, p, cidr, status)
    ensures Parses(cidr)
    ensures Current(store, p, cidr', status) <==>
            var n := status.value.allocatedCount;
            Parses(cidr') && CheapFree(cidr', n) == CheapFree(cidr, n)
  {
    var names :| Listing(names, store, p) && status == StatusOf(cidr, Items(names, store));
    if Parses(cidr') && CheapFree(cidr', |names|) == CheapFree(cidr, |names|) {
      assert status == StatusOf(cidr', Items(names, store));
    }
    if Current(store, p, cidr', status) {
      var names' :| Listing(names', store, p) && status == StatusOf(cidr', Items(names', store));
      assert status.value.freeCountBySize["24"] == CheapFree(cidr, |names|) == CheapFree(cidr', |names'|);
    }
  }

  /** The happening is a Subnet event of the pool, or another request for it. */
  predicate Concerns(l: Loop, h: Happening, p: string) {
    match h
    case PutSubnet(n, s) => s.poolRef == p || (n in l.store && l.store[n].poolRef == p)
    case DropSubnet(n) => n in l.store && l.store[n].poolRef == p
    case Nudge(q) => q == p
    case _ => false
  }

  /** A Subnet event queues the pools that the Subnet names before and after it, and nothing else; a Subnet that names
      no pool queues nothing. */
  lemma EventsQueueExactly(l: Loop, n: string, s: Subnet, p: string)
    ensures p in Next(l, PutSubnet(n, s)).queue <==>
            p in l.queue || (p != "" && (s.poolRef == p || (n in l.store && l.store[n].poolRef == p)))
    ensures p in Next(l, DropSubnet(n)).queue <==>
            p in l.queue || (p != "" && n in l.store && l.store[n].poolRef == p)
  {}

  /** After a Subnet event of an existing pool, the pool is up to date whenever it is quiescent again, unless it is
      deleted or edited. */
  lemma ConvergesAfterEvent(before: seq<Happening>, h: Happening, after: seq<Happening>, p: string)
    requires p != "" && p in Run(IDLE, before).pools && Concerns(Run(IDLE, before), h, p)
    requires forall x :: x in after ==> Leaves(x, p)
    ensures var l := Run(IDLE, before + [h] + after); Quiescent(l, p) ==> UpToDate(l, p)
  {
    RunOne(IDLE, before, h);
    ConvergesOncePending(before + [h], after, p);
  }

  /** A pool created after its Subnets is never visited unless another event follows: its status stays empty. */
  lemma LatePoolStaysEmpty(p: string, cidr: Cidr, s: Subnet)
    requires p != "" && s.poolRef == p
    ensures var l := Run(IDLE, [PutSubnet("s", s), Take(p), Fetch(p), NewPool(p, cidr)]);
            Dormant(l, p) && !UpToDate(l, p)
  {
    var hs := [PutSubnet("s", s), Take(p), Fetch(p), NewPool(p, cidr)];
    assert hs[..4] == hs && hs[..4][..3] == hs[..3] && hs[..3][..2] == hs[..2];
    assert hs[..2][..1] == hs[..1] && hs[..1][..0] == [];
    var l1 := Next(IDLE, hs[0]);
    assert l1 == Run(IDLE, hs[..1]);
    var l2 := Next(l1, hs[1]);
    assert l2 == Run(IDLE, hs[..2]);
    var l3 := Next(l2, hs[2]);
    assert l3 == Run(IDLE, hs[..3]);
  }
}
