/** What the requests to the memory server come to, in terms of the descriptors before and
    after, and how many pages a client gets. */
module MemoryLaws {
  import opened PageChains
  import opened MemoryServer
  import opened MemoryRuns

  /** The descriptor that the server finds for a thread. */
  ghost predicate FirstOf(owners: seq<Owner>, thread: nat, x: nat) {
    |owners| == MAXTASKS && 2 <= x < MAXTASKS && owners[x].thread == thread
    && forall y :: 2 <= y < x ==> owners[y].thread != thread
  }

  ghost predicate Unknown(owners: seq<Owner>, thread: nat) {
    |owners| == MAXTASKS && forall y :: 2 <= y < MAXTASKS ==> owners[y].thread != thread
  }

  lemma FindMeaning(owners: seq<Owner>, thread: nat, x: nat)
    requires |owners| == MAXTASKS
    ensures FirstOf(owners, thread, x) ==> Find(owners, thread, 2) == x
    ensures Unknown(owners, thread) ==> Find(owners, thread, 2) == MAXTASKS
  {
    FindBounds(owners, thread);
  }

  // ---------------------------------------------------------------- page faults

  /** Neither the info page nor the frame buffer, its end included. */
  predicate Ordinary(addr: int) {
    addr != 1 && (addr < 0xB8000 || addr > 0xC0000)
  }

  /** Who gets which kind of page: nobody but clients; the info page at 1 and physical memory
      in the frame buffer at no charge; otherwise the first free page, as long as there is one
      and the quota is above the number of pages. */
  lemma FaultLaw(owners: seq<Owner>, caller: nat, addr: int, x: nat)
    requires FirstOf(owners, caller, x)
    ensures var reply, after := ReplyTo(owners, PageFault(caller, addr)), Step(owners, PageFault(caller, addr));
            var free, chain := owners[FREELIST].chain, owners[x].chain;
            (addr == 1 ==> reply == MapInfo && after == owners)
            && (0xB8000 <= addr <= 0xC0000 ==> reply == MapPhysical && after == owners)
            && (Ordinary(addr) && free != [] && |chain| < owners[x].maxpages ==>
                  reply == MapPage(free[0])
                  && after == owners[FREELIST := owners[FREELIST].(chain := free[1..])]
                                    [x := owners[x].(chain := [free[0]] + chain)])
            && (Ordinary(addr) && (free == [] || |chain| >= owners[x].maxpages) ==>
               reply == NoResponse && after == owners)
  {
    FindMeaning(owners, caller, x);
  }

  lemma StrangerLaw(owners: seq<Owner>, caller: nat, addr: int)
    requires Unknown(owners, caller)
    ensures ReplyTo(owners, PageFault(caller, addr)) == NotAllowed && Step(owners, PageFault(caller, addr)) == owners
  {
    FindMeaning(owners, caller, 2);
  }

  predicate FaultsOf(requests: seq<Request>, task: nat) {
    forall k :: 0 <= k < |requests| ==>
      requests[k].PageFault? && requests[k].caller == task && Ordinary(requests[k].addr)
  }

  function Least(a: int, b: int): int {
    if a < b then a else b
  }

  /** Pages that a client with this descriptor gets in n page faults. */
  function Due(free: nat, quota: int, pages: nat, n: nat): (d: nat)
    ensures d <= free && d <= n
  {
    var room := if quota > pages then quota - pages else 0;
    Least(Least(free, room), n)
  }

  /** A client that faults n times gets as many pages as are free, as its quota has room for,
      and as it asks for; they come off the front of the free list, and nobody else loses or
      gains anything. */
  lemma {:induction false} FaultsServed(owners: seq<Owner>, requests: seq<Request>, task: nat, x: nat)
    requires FirstOf(owners, task, x) && FaultsOf(requests, task)
    ensures var after, free, chain := Run(owners, requests), owners[FREELIST].chain, owners[x].chain;
            var n := Due(|free|, owners[x].maxpages, |chain|, |requests|);
            |after[x].chain| == |chain| + n && after[x].chain[n..] == chain
            && (forall k :: 0 <= k < n ==> after[x].chain[n - 1 - k] == free[k])
            && after[FREELIST].chain == free[n..]
            && (forall y :: 0 <= y < MAXTASKS && y != x && y != FREELIST ==> after[y] == owners[y])
            && after[x].maxpages == owners[x].maxpages && after[x].thread == task
    decreases |requests|
  {
    hide FaultReply, Find, Granted, Step, Due;
    var free, chain, quota := owners[FREELIST].chain, owners[x].chain, owners[x].maxpages;
    if requests == [] {
      NothingDue(|free|, quota, |chain|);
    } else {
      var r := PageFault(task, requests[0].addr);
      assert requests[0] == r;
      var next := Step(owners, r);
      FaultLaw(owners, task, r.addr, x);
      FaultsServed(next, requests[1..], task, x);
      DueStep(|free|, quota, |chain|, |requests|);
      if free != [] && |chain| < quota {
        assert next[x].chain == [free[0]] + chain && next[FREELIST].chain == free[1..];
        Prepend(Run(owners, requests)[x].chain, free, chain, Due(|free|, quota, |chain|, |requests|));
      }
    }
  }

  lemma NothingDue(free: nat, quota: int, pages: nat)
    ensures Due(free, quota, pages, 0) == 0
  {
  }

  lemma DueStep(free: nat, quota: int, pages: nat, n: nat)
    requires n > 0
    ensures if free > 0 && pages < quota then Due(free, quota, pages, n) == 1 + Due(free - 1, quota, pages + 1, n - 1)
            else Due(free, quota, pages, n) == 0 == Due(free, quota, pages, n - 1)
  {
  }

  /** Taking one more page first. */
  lemma Prepend(after: seq<int>, free: seq<int>, chain: seq<int>, n: nat)
    requires 1 <= n <= |free| && |after| == |chain| + n && after[n - 1..] == [free[0]] + chain
    requires forall k :: 0 <= k < n - 1 ==> after[n - 2 - k] == free[1..][k]
    ensures after[n..] == chain && forall k :: 0 <= k < n ==> after[n - 1 - k] == free[k]
    ensures free[1..][n - 1..] == free[n..]
  {
    assert after[n - 1] == after[n - 1..][0] == free[0];
    assert after[n..] == after[n - 1..][1..];
    forall k | 0 <= k < n
      ensures after[n - 1 - k] == free[k]
    {
      if k > 0 {
        assert after[n - 2 - (k - 1)] == free[1..][k - 1];
      }
    }
  }

  // ---------------------------------------------------------------- the other requests

  /** An object is created in the first unused descriptor, for the default object and for
      memory interfaces only; it is not attached to anybody yet. */
  lemma CreateLaw(owners: seq<Owner>, objID: int, interfaces: seq<int>)
    requires |owners| == MAXTASKS
    ensures var r := CreateObject(objID, interfaces);
            var reply, after := ReplyTo(owners, r), Step(owners, r);
            var supported := objID == 0 && forall i :: i in interfaces ==> i == 0 || i == 0x4D454D;
            (!supported ==> reply == Unsupported && after == owners)
            && (supported && Unknown(owners, UNUSED) ==> reply == Full && after == owners)
            && (supported ==> forall x: nat :: FirstOf(owners, UNUSED, x) ==>
                  reply == Created(x) && after == owners[x := owners[x].(thread := 0)])
  {
    forall x: nat
      ensures FirstOf(owners, UNUSED, x) ==> Find(owners, UNUSED, 2) == x
    {
      FindMeaning(owners, UNUSED, x);
    }
    FindMeaning(owners, UNUSED, 2);
    SupportedMeaning(interfaces);
  }

  lemma SupportedMeaning(interfaces: seq<int>)
    ensures MemoryOnly(interfaces) <==> forall i :: i in interfaces ==> i == 0 || i == 0x4D454D
  {
    if MemoryOnly(interfaces) {
      forall i | i in interfaces
        ensures i == 0 || i == 0x4D454D
      {
        var k :| 0 <= k < |interfaces| && interfaces[k] == i;
      }
    }
    if forall i :: i in interfaces ==> i == 0 || i == 0x4D454D {
      forall k | 0 <= k < |interfaces|
        ensures interfaces[k] == GENERIC_API || interfaces[k] == MEMORY_API
      {
        assert interfaces[k] in interfaces;
      }
    }
  }

  /** A task is attached to an object that exists and has none; the caller becomes its boss. */
  lemma AttachLaw(owners: seq<Owner>, caller: nat, objID: int, task: nat)
    requires |owners| == MAXTASKS
    ensures var r := AttachTask(caller, objID, task);
            var reply, after := ReplyTo(owners, r), Step(owners, r);
            if objID < 2 || objID >= MAXTASKS || owners[objID].thread == UNUSED
            then reply == Unsupported && after == owners
            else if owners[objID].thread != 0 then reply == Locked && after == owners
            else reply == Success && after == owners[objID := owners[objID].(thread := task, boss := caller)]
  {
  }

  /** The quota of an object is set by anybody before a task is attached, and by its boss
      afterwards. */
  lemma QuotaLaw(owners: seq<Owner>, caller: nat, objID: int, maxpages: int)
    requires |owners| == MAXTASKS
    ensures var r := SetMaxpages(caller, objID, maxpages);
            var reply, after := ReplyTo(owners, r), Step(owners, r);
            if objID < 2 || objID >= MAXTASKS || owners[objID].thread == UNUSED
            then reply == Unsupported && after == owners
            else if owners[objID].thread == 0 || owners[objID].boss == caller
            then reply == Success && after == owners[objID := owners[objID].(maxpages := maxpages)]
            else reply == Locked && after == owners
  {
  }

  /** From the first request to the last page: an object is created, given a quota, attached
      to a task nobody else has, and then that task faults. It gets the pages that the quota
      says, and the caller of the attach is its boss. */
  lemma NewClientServed(owners: seq<Owner>, x: nat, anybody: nat, quota: int, boss: nat, task: nat,
                        faults: seq<Request>)
    requires FirstOf(owners, UNUSED, x) && task != 0 && task != UNUSED
    requires forall y :: 2 <= y < MAXTASKS ==> owners[y].thread != task
    requires FaultsOf(faults, task)
    ensures var requests := [CreateObject(0, [0x4D454D]), SetMaxpages(anybody, x, quota), AttachTask(boss, x, task)];
            var after, free, chain := Run(owners, requests + faults), owners[FREELIST].chain, owners[x].chain;
            var n := Due(|free|, quota, |chain|, |faults|);
            |after[x].chain| == |chain| + n && after[FREELIST].chain == free[n..]
            && after[x].thread == task && after[x].maxpages == quota
            && forall y :: 0 <= y < MAXTASKS && y != x && y != FREELIST ==> after[y] == owners[y]
  {
    hide FaultReply, Find, Granted, Step;
    var create, limit, attach := CreateObject(0, [0x4D454D]), SetMaxpages(anybody, x, quota), AttachTask(boss, x, task);
    var requests := [create, limit, attach];
    CreateLaw(owners, 0, [0x4D454D]);
    var created := Step(owners, create);
    QuotaLaw(created, anybody, x, quota);
    var limited := Step(created, limit);
    AttachLaw(limited, boss, x, task);
    var attached := Step(limited, attach);
    assert created == owners[x := owners[x].(thread := 0)];
    assert FirstOf(attached, task, x);
    FaultsServed(attached, faults, task, x);
    assert requests + faults == [create] + ([limit] + ([attach] + faults));
    RunFirst(owners, create, [limit] + ([attach] + faults));
    RunFirst(created, limit, [attach] + faults);
    RunFirst(limited, attach, faults);
  }

  lemma RunFirst(owners: seq<Owner>, r: Request, rest: seq<Request>)
    requires |owners| == MAXTASKS
    ensures Run(owners, [r] + rest) == Run(Step(owners, r), rest)
  {
    assert ([r] + rest)[1..] == rest;
  }
}
