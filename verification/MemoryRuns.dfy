/** What holds over every run of requests to the memory server. */
module MemoryRuns {
  import opened PageChains
  import opened MemoryServer
  import opened Wrappers

  function Run(owners: seq<Owner>, requests: seq<Request>): (after: seq<Owner>)
    requires |owners| == MAXTASKS
    ensures |after| == MAXTASKS
    decreases |requests|
  {
    if requests == [] then owners else Run(Step(owners, requests[0]), requests[1..])
  }

  /** One page handed to one client. */
  datatype Grant = Grant(client: nat, page: int)

  function GrantOf(owners: seq<Owner>, r: Request): seq<Grant>
    requires |owners| == MAXTASKS
  {
    match r
    case PageFault(caller, addr) =>
      if FaultReply(owners, caller, addr).MapPage?
      then [Grant(Find(owners, caller, 2), owners[FREELIST].chain[0])] else []
    case _ => []
  }

  function Grants(owners: seq<Owner>, requests: seq<Request>): seq<Grant>
    requires |owners| == MAXTASKS
    decreases |requests|
  {
    if requests == [] then [] else GrantOf(owners, requests[0]) + Grants(Step(owners, requests[0]), requests[1..])
  }

  function Pages(grants: seq<Grant>): (p: seq<int>)
    ensures |p| == |grants| && forall k :: 0 <= k < |p| ==> p[k] == grants[k].page
  {
    seq(|grants|, k requires 0 <= k < |grants| => grants[k].page)
  }

  /** The pages that went to one client, the most recent first. */
  function PagesOf(grants: seq<Grant>, x: nat): seq<int> {
    if grants == [] then []
    else PagesOf(grants[1..], x) + (if grants[0].client == x then [grants[0].page] else [])
  }

  // ---------------------------------------------------------------- one request

  /** At most one page leaves the free list, and goes to the front of one chain. */
  ghost predicate Moves(owners: seq<Owner>, after: seq<Owner>, g: seq<Grant>) {
    |owners| == |after| == MAXTASKS && |g| <= 1 && Pages(g) + after[FREELIST].chain == owners[FREELIST].chain &&
    (g != [] ==> 2 <= g[0].client < MAXTASKS && |owners[g[0].client].chain| < owners[g[0].client].maxpages) &&
    after[PHYSICAL].chain == owners[PHYSICAL].chain &&
    forall x :: 2 <= x < MAXTASKS ==>
        after[x].chain == (if g != [] && g[0].client == x then Pages(g) else []) + owners[x].chain
  }

  lemma NothingMoves(owners: seq<Owner>, after: seq<Owner>)
    requires |owners| == |after| == MAXTASKS && forall x :: 0 <= x < MAXTASKS ==> after[x].chain == owners[x].chain
    ensures Moves(owners, after, [])
  {
    assert Pages([]) == [];
    assert forall c: seq<int> :: [] + c == c;
  }

  lemma PageMoves(owners: seq<Owner>, client: nat)
    requires |owners| == MAXTASKS && 2 <= client < MAXTASKS && owners[FREELIST].chain != []
    requires |owners[client].chain| < owners[client].maxpages
    ensures Moves(owners, Granted(owners, client), [Grant(client, owners[FREELIST].chain[0])])
  {
    var page := owners[FREELIST].chain[0];
    assert Pages([Grant(client, page)]) == [page];
    assert owners[FREELIST].chain == [page] + owners[FREELIST].chain[1..];
    assert forall c: seq<int> :: [] + c == c;
  }

  /** How one request changes the chains. */
  lemma StepChains(owners: seq<Owner>, r: Request)
    requires |owners| == MAXTASKS
    ensures Moves(owners, Step(owners, r), GrantOf(owners, r))
  {
    hide Moves, Granted, Find;
    if GrantOf(owners, r) != [] {
      FindBounds(owners, r.caller);
      PageMoves(owners, Find(owners, r.caller, 2));
    } else {
      FindBounds(owners, UNUSED);
      NothingMoves(owners, Step(owners, r));
    }
  }

  /** Requests keep all chains disjoint and every page owned that was owned. */
  lemma StepOwnership(owners: seq<Owner>, r: Request)
    requires |owners| == MAXTASKS && Disjoint(owners)
    ensures Disjoint(Step(owners, r))
    ensures forall p :: Owned(Step(owners, r), p) <==> Owned(owners, p)
  {
    StepChains(owners, r);
    var after, g := Step(owners, r), GrantOf(owners, r);
    if g == [] {
      SameChains(owners, after);
    } else {
      Moved(owners, after, g[0].client);
    }
  }

  lemma SameChains(owners: seq<Owner>, after: seq<Owner>)
    requires Disjoint(owners) && |after| == |owners|
    requires forall x :: 0 <= x < |owners| ==> after[x].chain == owners[x].chain
    ensures Disjoint(after) && forall p :: Owned(after, p) <==> Owned(owners, p)
  {
    hide Distinct;
    forall p ensures Owned(after, p) <==> Owned(owners, p) {
      assert forall x :: 0 <= x < |owners| ==> (p in after[x].chain <==> p in owners[x].chain);
    }
  }

  lemma Moved(owners: seq<Owner>, after: seq<Owner>, client: nat)
    requires Disjoint(owners) && |after| == |owners| && 0 < client < |owners| && owners[FREELIST].chain != []
    requires var page := owners[FREELIST].chain[0];
             after[FREELIST].chain == owners[FREELIST].chain[1..]
               && after[client].chain == [page] + owners[client].chain
             && forall x :: 0 < x < |owners| && x != client ==> after[x].chain == owners[x].chain
    ensures Disjoint(after) && forall p :: Owned(after, p) <==> Owned(owners, p)
  {
    var page := owners[FREELIST].chain[0];
    MovedOwned(owners, after, client);
    assert page in owners[FREELIST].chain;
    assert Distinct(owners[FREELIST].chain) && Distinct(owners[client].chain);
    assert forall x, p :: 0 <= x < |owners| && p in after[x].chain && p != page ==> p in owners[x].chain;
    assert page !in after[FREELIST].chain;
  }

  lemma MovedOwned(owners: seq<Owner>, after: seq<Owner>, client: nat)
    requires |after| == |owners| && 0 < client < |owners| && owners[FREELIST].chain != []
    requires var page := owners[FREELIST].chain[0];
             after[FREELIST].chain == owners[FREELIST].chain[1..]
               && after[client].chain == [page] + owners[client].chain
             && forall x :: 0 < x < |owners| && x != client ==> after[x].chain == owners[x].chain
    ensures forall p :: Owned(after, p) <==> Owned(owners, p)
  {
    var page := owners[FREELIST].chain[0];
    assert owners[FREELIST].chain == [page] + owners[FREELIST].chain[1..];
    forall p ensures Owned(after, p) <==> Owned(owners, p) {
      if Owned(owners, p) {
        var x :| 0 <= x < |owners| && p in owners[x].chain;
        assert p in after[if p == page then client else x].chain;
      }
      if Owned(after, p) {
        var x :| 0 <= x < |owners| && p in after[x].chain;
        assert p in owners[if p == page then FREELIST else x].chain;
      }
    }
  }

  // ---------------------------------------------------------------- whole runs

  /** Pages leave the free list in its order and none comes back. */
  lemma {:induction false} GrantsInOrder(owners: seq<Owner>, requests: seq<Request>)
    requires |owners| == MAXTASKS
    ensures Pages(Grants(owners, requests)) + Run(owners, requests)[FREELIST].chain == owners[FREELIST].chain
    ensures Run(owners, requests)[PHYSICAL].chain == owners[PHYSICAL].chain
    decreases |requests|
  {
    hide Step, GrantOf;
    if requests != [] {
      var next, g, rest := Step(owners, requests[0]), GrantOf(owners, requests[0]),
        Grants(Step(owners, requests[0]), requests[1..]);
      StepChains(owners, requests[0]);
      GrantsInOrder(next, requests[1..]);
      assert Pages(g + rest) == Pages(g) + Pages(rest);
    }
  }

  /** A client's chain grows by exactly the pages it was granted and never shrinks. */
  lemma {:induction false} ClientKeepsPages(owners: seq<Owner>, requests: seq<Request>, x: nat)
    requires |owners| == MAXTASKS && 2 <= x < MAXTASKS
    ensures Run(owners, requests)[x].chain == PagesOf(Grants(owners, requests), x) + owners[x].chain
    decreases |requests|
  {
    hide Step, GrantOf, PagesOf, Pages;
    PagesOfNothing(x);
    if requests != [] {
      var next, g, rest := Step(owners, requests[0]), GrantOf(owners, requests[0]),
        Grants(Step(owners, requests[0]), requests[1..]);
      StepChains(owners, requests[0]);
      ClientKeepsPages(next, requests[1..], x);
      PagesOfFirst(g, rest, x);
    }
  }

  lemma PagesOfNothing(x: nat)
    ensures PagesOf([], x) == []
  {
  }

  lemma PagesOfFirst(g: seq<Grant>, rest: seq<Grant>, x: nat)
    requires |g| <= 1
    ensures PagesOf(g + rest, x) == PagesOf(rest, x) + (if g != [] && g[0].client == x then Pages(g) else [])
  {
    if g == [] {
      assert g + rest == rest;
    } else {
      assert (g + rest)[1..] == rest && (g + rest)[0] == g[0];
      assert Pages(g) == [g[0].page];
    }
  }

  /** The set of owned pages never changes, and no page has two owners. */
  lemma {:induction false} OwnershipConserved(owners: seq<Owner>, requests: seq<Request>)
    requires |owners| == MAXTASKS && Disjoint(owners)
    ensures Disjoint(Run(owners, requests))
    ensures forall p :: Owned(Run(owners, requests), p) <==> Owned(owners, p)
    decreases |requests|
  {
    hide Step, Disjoint, Owned;
    if requests != [] {
      StepOwnership(owners, requests[0]);
      OwnershipConserved(Step(owners, requests[0]), requests[1..]);
    }
  }

  /** No page is handed out twice in a run. */
  lemma NoPageTwice(owners: seq<Owner>, requests: seq<Request>)
    requires |owners| == MAXTASKS && Disjoint(owners)
    ensures Distinct(Pages(Grants(owners, requests)))
  {
    hide Run, Grants, Pages;
    GrantsInOrder(owners, requests);
    var pages, free := Pages(Grants(owners, requests)), owners[FREELIST].chain;
    assert Distinct(free);
    assert forall k :: 0 <= k < |pages| ==> pages[k] == free[k];
  }

  predicate QuotasWithin(requests: seq<Request>, x: nat, limit: int) {
    forall k :: 0 <= k < |requests| && requests[k].SetMaxpages? && requests[k].objID == x ==>
        requests[k].maxpages <= limit
  }

  /** A client never has more pages than the largest quota it was given. */
  lemma {:induction false} QuotaKept(owners: seq<Owner>, requests: seq<Request>, x: nat, limit: int)
    requires |owners| == MAXTASKS && 2 <= x < MAXTASKS && QuotasWithin(requests, x, limit)
    requires owners[x].maxpages <= limit && |owners[x].chain| <= limit
    ensures |Run(owners, requests)[x].chain| <= limit
    decreases |requests|
  {
    hide GrantOf;
    if requests != [] {
      var r := requests[0];
      StepChains(owners, r);
      StepQuota(owners, r, x, limit);
      QuotaKept(Step(owners, r), requests[1..], x, limit);
    }
  }

  lemma StepQuota(owners: seq<Owner>, r: Request, x: nat, limit: int)
    requires |owners| == MAXTASKS && 2 <= x < MAXTASKS && owners[x].maxpages <= limit
    requires r.SetMaxpages? && r.objID == x ==> r.maxpages <= limit
    ensures Step(owners, r)[x].maxpages <= limit
  {
    match r
    case PageFault(caller, addr) => FindBounds(owners, caller);
    case CreateObject(_, _) => FindBounds(owners, UNUSED);
    case AttachTask(_, _, _) =>
    case SetMaxpages(_, _, _) =>
  }

  /** A created object was unused and can be attached to at once; after that, page faults
      of the task are charged to it, and only the attaching thread sets its quota. */
  lemma CreateAttachFault(owners: seq<Owner>, interfaces: seq<int>, caller: nat, task: nat)
    requires |owners| == MAXTASKS && ReplyTo(owners, CreateObject(DEFAULT_OBJECT, interfaces)).Created?
    requires task != 0 && task != UNUSED && forall y :: 2 <= y < MAXTASKS ==> owners[y].thread != task
    ensures var x := ReplyTo(owners, CreateObject(DEFAULT_OBJECT, interfaces)).objID;
            2 <= x < MAXTASKS && owners[x].thread == UNUSED
            && var created := Step(owners, CreateObject(DEFAULT_OBJECT, interfaces));
            ReplyTo(created, AttachTask(caller, x, task)) == Success
            && var attached := Step(created, AttachTask(caller, x, task));
            Find(attached, task, 2) == x && attached[x].chain == owners[x].chain
            && (forall other: nat, n: int ::
               ReplyTo(attached, SetMaxpages(other, x, n)) == if other == caller then Success else Locked)
            && forall other: nat, t: nat :: ReplyTo(attached, AttachTask(other, x, t)) == Locked
  {
    FindBounds(owners, UNUSED);
    var x := Find(owners, UNUSED, 2);
    var created := Step(owners, CreateObject(DEFAULT_OBJECT, interfaces));
    var attached := Step(created, AttachTask(caller, x, task));
    FindBounds(attached, task);
    assert attached[x].thread == task;
    assert forall y :: 2 <= y < MAXTASKS && y != x ==> attached[y].thread == owners[y].thread;
    FoundAt(attached, task, x);
  }

  lemma FoundAt(owners: seq<Owner>, thread: nat, x: nat)
    requires |owners| == MAXTASKS && 2 <= x < MAXTASKS && owners[x].thread == thread
    requires forall y :: 2 <= y < MAXTASKS && y != x ==> owners[y].thread != thread
    ensures Find(owners, thread, 2) == x
  {
    var r := Find(owners, thread, 2);
    assert r < MAXTASKS ==> owners[r].thread == thread;
  }

  predicate Attached(o: Owner) {
    o.thread != 0 && o.thread != UNUSED
  }

  predicate BossSilent(requests: seq<Request>, x: nat, boss: nat) {
    forall k :: 0 <= k < |requests| && requests[k].SetMaxpages? && requests[k].objID == x ==> requests[k].caller != boss
  }

  /** Once a task is attached to an object, its threads stay; only the boss changes
      the quota. */
  lemma {:induction false} AttachedForGood(owners: seq<Owner>, requests: seq<Request>, x: nat)
    requires |owners| == MAXTASKS && 2 <= x < MAXTASKS && Attached(owners[x])
    ensures var after := Run(owners, requests)[x];
            after.thread == owners[x].thread && after.boss == owners[x].boss
            && (BossSilent(requests, x, owners[x].boss) ==> after.maxpages == owners[x].maxpages)
    decreases |requests|
  {
    if requests != [] {
      StepAttached(owners, requests[0], x);
      AttachedForGood(Step(owners, requests[0]), requests[1..], x);
    }
  }

  lemma StepAttached(owners: seq<Owner>, r: Request, x: nat)
    requires |owners| == MAXTASKS && 2 <= x < MAXTASKS && Attached(owners[x])
    ensures var after := Step(owners, r)[x];
            after.thread == owners[x].thread && after.boss == owners[x].boss
            && (after.maxpages != owners[x].maxpages ==> r.SetMaxpages? && r.objID == x && r.caller == owners[x].boss)
  {
    match r
    case PageFault(caller, addr) => FindBounds(owners, caller);
    case CreateObject(_, _) => FindBounds(owners, UNUSED);
    case AttachTask(_, _, _) =>
    case SetMaxpages(_, _, _) =>
  }

  // ---------------------------------------------------------------- frames behind the pages

  /** The handler maps pool slot number `page`, but boot filled the slots from the
      highest page down, so the slot of a page shows the frame mirrored in the pool.
      Distinct pages still get distinct frames, but there is a frame behind every page
      of the pool exactly if the granted pages of the pool are symmetric. */
  lemma FramesMirrored(pool: seq<int>, granted: seq<bool>, size: nat)
    requires PoolMap(pool, granted, size, size) && IsPoolSize(granted, size)
    ensures forall p :: InPool(granted, p) && pool[p] != -1 ==> pool[p] == size - 1 - p
    ensures (forall p :: InPool(granted, p) ==> pool[p] != -1)
       <==> (forall p :: 0 <= p < size && granted[p] ==> granted[size - 1 - p])
  {
    PoolBelow(granted);
    forall p | InPool(granted, p)
      ensures p < size && granted[p] && (pool[p] != -1 <==> granted[size - 1 - p])
    {
    }
    forall p | 0 <= p < size && granted[p] ensures InPool(granted, p) {
    }
  }

  /** A hole in memory leaves a page without a frame. */
  lemma FrameMissing(granted: seq<bool>, pool: seq<int>)
    requires granted == [true, true, false, true] && PoolMap(pool, granted, 3, 3)
    ensures InPool(granted, 0) && pool[0] == -1
  {
    assert Above(granted, 4) == 0 && Above(granted, 3) == 1 && Above(granted, 2) == 1 && Above(granted, 1) == 2;
  }
}
