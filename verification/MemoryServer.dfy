/** The ChacmOS memory server: boot, page faults, and the requests on memory objects. */
module MemoryServer {
  import opened PageChains
  import opened Wrappers

  const GENERIC_API := 0
  const MEMORY_API := 0x004D_454D
  const DEFAULT_OBJECT := 0
  const UNLIMITED := 0x7FFF_FFFF
  const VIDEO := 0xB8
  const VIDEO_END := 0xC0

  // ---------------------------------------------------------------- requests

  datatype Request =
    | PageFault(caller: nat, addr: int)
    | CreateObject(objID: int, interfaces: seq<int>)
    | AttachTask(caller: nat, objID: int, task: nat)
    | SetMaxpages(caller: nat, objID: int, maxpages: int)

  datatype Reply =
    | MapPage(page: int) | MapPhysical | MapInfo | NoResponse | NotAllowed
    | Success | Created(objID: int) | Unsupported | Full | Locked

  /** The first client descriptor of a thread; MAXTASKS if there is none. */
  function Find(owners: seq<Owner>, thread: nat, x: nat): (r: nat)
    requires |owners| == MAXTASKS
    ensures x <= MAXTASKS ==> x <= r <= MAXTASKS && (r < MAXTASKS ==> owners[r].thread == thread)
    ensures forall y :: x <= y < r && y < MAXTASKS ==> owners[y].thread != thread
    decreases MAXTASKS - x
  {
    if x >= MAXTASKS || owners[x].thread == thread then x else Find(owners, thread, x + 1)
  }

  function FaultReply(owners: seq<Owner>, caller: nat, addr: int): Reply
    requires |owners| == MAXTASKS
  {
    var client := Find(owners, caller, 2);
    if client >= MAXTASKS then NotAllowed
    else if addr == 1 then MapInfo
    else if 0xB8000 <= addr <= 0xC0000 then MapPhysical
    else if owners[FREELIST].chain != [] && |owners[client].chain| < owners[client].maxpages then
      MapPage(owners[FREELIST].chain[0])
    else NoResponse
  }

  /** The page at the head of the free list changes hands. */
  function Granted(owners: seq<Owner>, client: nat): seq<Owner>
    requires client < |owners| && 0 < |owners| && owners[FREELIST].chain != [] && client != FREELIST
  {
    var page, rest := owners[FREELIST].chain[0], owners[FREELIST].chain[1..];
    owners[FREELIST := owners[FREELIST].(chain := rest)]
          [client := owners[client].(chain := [page] + owners[client].chain)]
  }

  predicate MemoryOnly(interfaces: seq<int>) {
    forall i :: 0 <= i < |interfaces| ==> interfaces[i] == GENERIC_API || interfaces[i] == MEMORY_API
  }

  predicate IsObject(objID: int) {
    2 <= objID < MAXTASKS
  }

  function ReplyTo(owners: seq<Owner>, r: Request): Reply
    requires |owners| == MAXTASKS
  {
    match r
    case PageFault(caller, addr) => FaultReply(owners, caller, addr)
    case CreateObject(objID, interfaces) =>
      if objID != DEFAULT_OBJECT || !MemoryOnly(interfaces) then Unsupported
      else
        var x := Find(owners, UNUSED, 2);
        if x == MAXTASKS then Full else Created(x)
    case AttachTask(_, objID, _) =>
      if !IsObject(objID) || owners[objID].thread == UNUSED then Unsupported
      else if owners[objID].thread != 0 then Locked
      else Success
    case SetMaxpages(caller, objID, _) =>
      if !IsObject(objID) || owners[objID].thread == UNUSED then Unsupported
      else if owners[objID].thread != 0 && owners[objID].boss != caller then Locked
      else Success
  }

  /** The owners after one request. */
  function Step(owners: seq<Owner>, r: Request): (after: seq<Owner>)
    requires |owners| == MAXTASKS
    ensures |after| == MAXTASKS
  {
    match r
    case PageFault(caller, addr) =>
      if FaultReply(owners, caller, addr).MapPage? then Granted(owners, Find(owners, caller, 2)) else owners
    case CreateObject(_, _) =>
      if ReplyTo(owners, r).Created? then
        var x := Find(owners, UNUSED, 2);
        owners[x := owners[x].(thread := 0)]
      else owners
    case AttachTask(caller, objID, task) =>
      if ReplyTo(owners, r) == Success then owners[objID := owners[objID].(thread := task, boss := caller)] else owners
    case SetMaxpages(_, objID, maxpages) =>
      if ReplyTo(owners, r) == Success then owners[objID := owners[objID].(maxpages := maxpages)] else owners
  }

  // ---------------------------------------------------------------- boot

  /** Pages of memory that mtab itself needs, for 1024 entries each. */
  function Needed(pages: nat): nat {
    (pages + 1023) / 1024
  }

  /** How many pages from p on were granted at boot. */
  function Above(granted: seq<bool>, p: nat): nat
    decreases |granted| - p
  {
    if p >= |granted| then 0 else (if granted[p] then 1 else 0) + Above(granted, p + 1)
  }

  /** The highest granted pages hold mtab; those below are for clients. */
  predicate InPool(granted: seq<bool>, p: int) {
    0 <= p < |granted| && granted[p] && Above(granted, p + 1) >= Needed(|granted|)
  }

  function PoolFrom(granted: seq<bool>, p: nat): seq<int>
    decreases |granted| - p
  {
    if p >= |granted| then [] else (if InPool(granted, p) then [p as int] else []) + PoolFrom(granted, p + 1)
  }

  predicate Ascending(chain: seq<int>) {
    forall j, k :: 0 <= j < k < |chain| ==> chain[j] < chain[k]
  }

  lemma {:induction false} PoolContents(granted: seq<bool>, p: nat)
    ensures Ascending(PoolFrom(granted, p))
    ensures forall q :: q in PoolFrom(granted, p) <==> p <= q && InPool(granted, q)
    decreases |granted| - p
  {
    hide InPool, Ascending;
    PoolBelow(granted);
    if p < |granted| {
      PoolContents(granted, p + 1);
      AscendingInFront(p, PoolFrom(granted, p + 1));
    } else {
      NothingAscending();
    }
  }

  lemma AscendingInFront(page: int, chain: seq<int>)
    requires Ascending(chain) && forall q :: q in chain ==> page < q
    ensures Ascending([page] + chain) && Ascending([] + chain)
  {
    hide Ascending;
    assert [] + chain == chain;
    forall k | 0 <= k < |chain| ensures page < chain[k] {
      assert chain[k] in chain;
    }
    AscendingBehind(page, chain);
  }

  lemma AscendingBehind(page: int, chain: seq<int>)
    requires Ascending(chain) && forall k :: 0 <= k < |chain| ==> page < chain[k]
    ensures Ascending([page] + chain)
  {
  }

  lemma NothingAscending()
    ensures Ascending([])
  {
  }

  lemma EmptyOrNot(chain: seq<int>)
    ensures chain == [] || exists q :: q in chain
  {
    if chain != [] {
      var q := chain[0];
      assert q in chain;
    }
  }

  lemma PoolBelow(granted: seq<bool>)
    ensures forall q :: InPool(granted, q) ==> 0 <= q < |granted|
  {
  }

  lemma {:induction false} AboveMonotone(granted: seq<bool>, p: nat, q: nat)
    requires p <= q
    ensures Above(granted, p) >= Above(granted, q)
    decreases q - p
  {
    if p < q {
      AboveMonotone(granted, p + 1, q);
    }
  }

  /** The free list while the video pages below v are taken out of it. */
  function FreeAfter(pool: seq<int>, v: nat): seq<int> {
    if v <= VIDEO then pool else Without(FreeAfter(pool, v - 1), v - 1)
  }

  function VideoAfter(pool: seq<int>, v: nat): seq<int> {
    if v <= VIDEO then [] else (if v - 1 in FreeAfter(pool, v - 1) then [v - 1] else []) + VideoAfter(pool, v - 1)
  }

  lemma AscendingTail(chain: seq<int>)
    requires Ascending(chain)
    ensures chain != [] ==> Ascending(chain[1..]) && forall q :: q in chain[1..] ==> chain[0] < q
  {
  }

  lemma {:induction false} WithoutContents(chain: seq<int>, page: int)
    requires Ascending(chain)
    ensures Ascending(Without(chain, page)) && forall q :: q in Without(chain, page) <==> q in chain && q != page
    decreases |chain|
  {
    hide Ascending;
    AscendingTail(chain);
    if chain != [] {
      WithoutContents(chain[1..], page);
      assert chain == [chain[0]] + chain[1..];
      AscendingInFront(chain[0], Without(chain[1..], page));
    }
  }

  lemma {:induction false} VideoSplit(pool: seq<int>, v: nat)
    requires Ascending(pool)
    ensures Ascending(FreeAfter(pool, v))
    ensures forall q :: q in FreeAfter(pool, v) <==> q in pool && !(VIDEO <= q < v)
    ensures forall q :: q in VideoAfter(pool, v) <==> q in pool && VIDEO <= q < v
    decreases v
  {
    hide Ascending, Without;
    if v > VIDEO {
      var p: int := v - 1;
      VideoSplit(pool, v - 1);
      WithoutContents(FreeAfter(pool, v - 1), p);
      assert FreeAfter(pool, v) == Without(FreeAfter(pool, v - 1), p);
    }
  }

  /** Nobody is registered, and only the first two descriptors have pages. */
  function Unclaimed(free: seq<int>, video: seq<int>): (owners: seq<Owner>)
    ensures |owners| == MAXTASKS
  {
    seq(MAXTASKS,
        x => Owner(if x == FREELIST then free else if x == PHYSICAL then video else [], UNLIMITED, UNUSED, UNUSED))
  }

  function Booted(granted: seq<bool>, p: nat, v: nat): seq<Owner> {
    Unclaimed(FreeAfter(PoolFrom(granted, p), v), VideoAfter(PoolFrom(granted, p), v))
  }

  function Outstanding(granted: seq<bool>, i: nat): nat {
    if Above(granted, i) >= Needed(|granted|) then 0 else Needed(|granted|) - Above(granted, i)
  }

  predicate IsPoolSize(granted: seq<bool>, size: nat) {
    size <= |granted| && forall p :: 0 <= p < |granted| ==> (InPool(granted, p) <==> p < size && granted[p])
  }

  /** Frames are mapped into the pool in the order in which they were granted, the
      highest first. */
  predicate PoolMap(pool: seq<int>, granted: seq<bool>, size: nat, slots: nat) {
    slots <= size <= |granted| == |pool| &&
    forall k :: 0 <= k < |pool| ==> pool[k] == if k < slots && granted[size - 1 - k] then size - 1 - k else -1
  }

  // ---------------------------------------------------------------- the server

  class Server {
    const space: array<AddressSpace>
    const mtab: array<int>
    /** The frame mapped at each page of the pool, or -1. */
    const pool: array<int>
    ghost var owners: seq<Owner>

    ghost predicate Valid()
      reads this, space, mtab
    {
      space.Length == |owners| == MAXTASKS && mtab != pool && Consistent(space[..], mtab[..], owners)
    }

    /** How many pages clients may get at most; the pool has a slot for each. */
    ghost var poolSize: nat

    /** Takes over the memory that was granted. */
    constructor (granted: seq<bool>)
      ensures Valid() && mtab.Length == |granted| && fresh(space) && fresh(mtab) && fresh(pool)
      ensures owners == Booted(granted, 0, VIDEO_END)
      ensures PoolMap(pool[..], granted, poolSize, poolSize)
      ensures IsPoolSize(granted, poolSize)
    {
      space := new AddressSpace[MAXTASKS](_ => AddressSpace(-1, 0, UNLIMITED, UNUSED, UNUSED));
      mtab := new int[|granted|];
      pool := new int[|granted|](_ => -1);
      owners := Booted(granted, |granted|, VIDEO);
      poolSize := 0;
      new;
      InitialOwners(granted, space[..], mtab[..]);
      SnatchPages(granted);
      ReserveVideo(granted);
    }

    /** Between two steps of the loop over all pages, the next page being i - 1. */
    ghost predicate Snatching(granted: seq<bool>, i: nat, mtabsize: nat, slot: nat)
      reads this, space, mtab, pool
    {
      Valid() && i <= mtab.Length == pool.Length == |granted| && owners == Booted(granted, i, VIDEO) &&
      mtabsize == Outstanding(granted, i) &&
      (if mtabsize > 0 then poolSize == 0 && forall k :: 0 <= k < pool.Length ==> pool[k] == -1
       else
         Clean(mtab[..], owners) && poolSize == i + slot && PoolMap(pool[..], granted, poolSize, slot)
         && IsPoolSize(granted, poolSize))
    }

    method SnatchPages(granted: seq<bool>)
      requires Valid() && mtab.Length == pool.Length == |granted| && owners == Booted(granted, |granted|, VIDEO)
      requires poolSize == 0 && forall k :: 0 <= k < pool.Length ==> pool[k] == -1
      modifies `owners, `poolSize, space, mtab, pool
      ensures Valid() && mtab.Length == |granted| && owners == Booted(granted, 0, VIDEO)
      ensures PoolMap(pool[..], granted, poolSize, poolSize) && IsPoolSize(granted, poolSize)
      ensures Clean(mtab[..], owners) || PoolFrom(granted, 0) == []
    {
      hide Represents, Consistent, Booted, Clean, InPool, Outstanding, Needed;
      var pagecnt: nat := |granted|;
      var mtabsize: nat := Needed(pagecnt);
      var slot: nat := 0;
      BootBounds(granted, mtab[..], owners);
      for i := pagecnt downto 0
        invariant Snatching(granted, i, mtabsize, slot)
      {
        mtabsize, slot := SnatchPage(granted, i, mtabsize, slot);
      }
      if mtabsize > 0 {
        NoPool(granted);
      }
    }

    method SnatchPage(granted: seq<bool>, i: nat, mtabsize: nat, slot: nat) returns (mtabsize': nat, slot': nat)
      requires i < |granted| && Snatching(granted, i + 1, mtabsize, slot)
      modifies `owners, `poolSize, space, mtab, pool
      ensures Snatching(granted, i, mtabsize', slot')
    {
      hide Consistent, Clean, PageChains.AddPage, PoolFrom, InPool, Unclaimed, IsPoolSize, PoolMap, Above, Needed;
      ghost var pool0 := pool[..];
      PoolBounds(pool0, granted, poolSize, slot, i);
      mtabsize', slot' := mtabsize, slot;
      BootStep(granted, i);
      UnclaimedStep(PoolFrom(granted, i + 1), i);
      if mtabsize > 0 {
        NothingYet(granted, i);
        if granted[i] {
          mtabsize' := mtabsize - 1;
          if mtabsize' == 0 {
            ghost var space0, table := space[..], mtab[..];
            forall j | 0 <= j < mtab.Length {
              mtab[j] := -1;
            }
            slot' := 0;
            poolSize := i;
            assert owners == Unclaimed([], []);
            FreshTable(space0, table, mtab[..]);
            assert space[..] == space0 && pool[..] == pool0;
          }
        }
      } else {
        PoolSlot(pool[..], granted, poolSize, slot, i);
        pool[slot] := if granted[i] then i else -1;
        slot' := slot + 1;
        pool0 := pool[..];
        if granted[i] {
          var added := AddPage(i, FREELIST);
        }
        assert pool[..] == pool0;
      }
    }

    /** The pages of the frame buffer are kept for physical mapping. */
    method ReserveVideo(granted: seq<bool>)
      requires Valid() && owners == Booted(granted, 0, VIDEO) && mtab.Length == |granted|
      requires Clean(mtab[..], owners) || PoolFrom(granted, 0) == []
      modifies `owners, space, mtab
      ensures Valid() && owners == Booted(granted, 0, VIDEO_END)
    {
      hide Consistent, Clean, PoolFrom, Booted, Without, PageChains.AddPage;
      for v := VIDEO to VIDEO_END
        invariant Valid() && owners == Booted(granted, 0, v)
        invariant Clean(mtab[..], owners) || PoolFrom(granted, 0) == []
      {
        VideoStep(granted, v);
        var removed := RemovePage(v, FREELIST);
        if removed {
          var added := AddPage(v, PHYSICAL);
        }
      }
    }

    /** Walks a chain until the page or the end comes next. */
    method FollowTo(page: int, root: int, ghost c: seq<int>) returns (pos: int, ghost k: nat)
      requires c != [] && IsChain(mtab[..], root, c) && c[0] != page
      ensures k < |c| && pos == c[k] && 0 <= pos < mtab.Length && (forall j :: 0 <= j <= k ==> c[j] != page)
      ensures mtab[pos] == At(c, k + 1)
      ensures if mtab[pos] < 0 then page !in c else k + 1 < |c| && mtab[pos] == page == c[k + 1]
    {
      pos, k := root, 0;
      assert forall j :: 0 <= j < |c| ==> mtab[..][c[j]] == mtab[c[j]];
      while mtab[pos] != page && mtab[pos] >= 0
        invariant k < |c| && pos == c[k] && forall j :: 0 <= j <= k ==> c[j] != page
        decreases |c| - k
      {
        pos := mtab[pos];
        k := k + 1;
      }
      assert mtab[pos] >= 0 || k + 1 == |c|;
    }

    /** Takes a page out of a chain, if it is there. */
    method RemovePage(page: int, from: nat) returns (removed: bool)
      requires Valid() && from < MAXTASKS
      modifies `owners, space, mtab
      ensures Valid() && removed == (page in old(owners)[from].chain)
      ensures old(Clean(mtab[..], owners)) ==> Clean(mtab[..], owners)
      ensures owners == old(owners)[from := old(owners)[from].(chain := Without(old(owners)[from].chain, page))]
    {
      hide Represents, Clean, NoPages, IsChain, Without, Holds, At, Distinct;
      ghost var c, space0, mtab0 := owners[from].chain, space[..], mtab[..];
      ChainOf(space0, mtab0, owners, from);
      AbsentUnlessIn(c, page);
      var pos := space[from].root;
      if pos == -1 {
        return false;
      }
      if pos == page {
        space[from] := space[from].(root := mtab[pos]);
        mtab[pos] := -1;
        ReleaseFirst(space0, mtab0, owners, from);
        assert mtab[..] == mtab0[page := -1];
      } else {
        ghost var k;
        pos, k := FollowTo(page, pos, c);
        if mtab[pos] < 0 {
          return false;
        }
        mtab[pos] := mtab[mtab[pos]];
        mtab[page] := -1;
        ReleaseInner(space0, mtab0, owners, from, k + 1);
        assert mtab[..] == mtab0[pos := mtab0[page]][page := -1];
      }
      space[from] := space[from].(pages := space[from].pages - 1);
      assert space[..] == space0[from := space[from]];
      owners := owners[from := owners[from].(chain := Without(c, page))];
      return true;
    }

    /** Puts a page that nobody owns in front of a chain. */
    method AddPage(page: int, to: nat) returns (added: bool)
      requires space.Length == MAXTASKS && to < MAXTASKS && 0 <= page < mtab.Length && mtab != pool
      modifies `owners, space, mtab
      ensures (space[..], mtab[..], added) == PageChains.AddPage(old(space[..]), old(mtab[..]), page, to)
      ensures old(Valid()) && old(Clean(mtab[..], owners)) && !Owned(old(owners), page) ==>
                added && Valid() && Clean(mtab[..], owners)
                && owners == old(owners)[to := old(owners)[to].(chain := [page] + old(owners)[to].chain)]
    {
      hide Represents, Disjoint, NoPages;
      ghost var good := Valid() && Clean(mtab[..], owners) && !Owned(owners, page);
      if mtab[page] >= 0 {
        return false;
      }
      if good {
        Gained(space[..], mtab[..], owners, to, page);
        ChainOf(space[..], mtab[..], owners, to);
        CleanGained(mtab[..], owners, to, page, space[to].root);
      }
      mtab[page] := space[to].root;
      space[to] := space[to].(root := page);
      space[to] := space[to].(pages := space[to].pages + 1);
      assert space[..] == old(space[..])[to := old(space[to]).(root := page, pages := old(space[to]).pages + 1)];
      if good {
        owners := owners[to := owners[to].(chain := [page] + owners[to].chain)];
      }
      return true;
    }

    /** The first client descriptor of a thread; also how an unused one is found. */
    method FindDescriptor(thread: nat) returns (x: nat)
      requires Valid()
      ensures x == Find(owners, thread, 2)
    {
      hide Find, IsChain, Disjoint, Clean, NoPages;
      x := 2;
      FindFrom(owners, thread, 2);
      while x < MAXTASKS && space[x].thread != thread
        invariant 2 <= x <= MAXTASKS && Find(owners, thread, x) == Find(owners, thread, 2)
      {
        assert Holds(space[..][x], mtab[..], owners[x]);
        FindFrom(owners, thread, x);
        x := x + 1;
      }
      if x < MAXTASKS {
        assert Holds(space[..][x], mtab[..], owners[x]);
      }
      FindFrom(owners, thread, x);
    }

    /** The page fault handler. */
    method HandlePageFault(caller: nat, addr: int) returns (reply: Reply)
      requires Valid()
      modifies `owners, space, mtab
      ensures Valid() && reply == FaultReply(old(owners), caller, addr)
      ensures owners == Step(old(owners), PageFault(caller, addr))
    {
      hide Represents, Clean, NoPages, IsChain, Without, Find, PageChains.AddPage;
      var clientnr := FindDescriptor(caller);
      if clientnr < MAXTASKS {
        if addr != 1 {
          if addr >= 0xB8000 && addr <= 0xC0000 {
            return MapPhysical;
          } else {
            FindBounds(owners, caller);
            ChainOf(space[..], mtab[..], owners, FREELIST);
            ChainOf(space[..], mtab[..], owners, clientnr);
            if space[FREELIST].pages > 0 && space[clientnr].pages < space[clientnr].maxpages {
              var page := space[FREELIST].root;
              ghost var before := owners;
              HeadReleased(space[..], mtab[..], before, page);
              var removed := RemovePage(page, FREELIST);
              var added := AddPage(page, clientnr);
              assert owners == Granted(before, clientnr);
              return MapPage(page);
            } else {
              return NoResponse;
            }
          }
        } else {
          return MapInfo;
        }
      } else {
        return NotAllowed;
      }
    }

    method HandleCreate(objID: int, interfaces: seq<int>) returns (reply: Reply)
      requires Valid()
      modifies `owners, space
      ensures Valid() && reply == ReplyTo(old(owners), CreateObject(objID, interfaces))
      ensures owners == Step(old(owners), CreateObject(objID, interfaces))
    {
      hide Represents, Clean, NoPages, Find;
      if objID == DEFAULT_OBJECT {
        for i := 0 to |interfaces|
          invariant forall j :: 0 <= j < i ==> interfaces[j] == GENERIC_API || interfaces[j] == MEMORY_API
        {
          if interfaces[i] != GENERIC_API && interfaces[i] != MEMORY_API {
            return Unsupported;
          }
        }
        var x := FindDescriptor(UNUSED);
        if x == MAXTASKS {
          return Full;
        }
        FindBounds(owners, UNUSED);
        Redescribed(space[..], mtab[..], owners, x, space[x].maxpages, 0, space[x].boss);
        space[x] := space[x].(thread := 0);
        owners := owners[x := owners[x].(thread := 0)];
        return Created(x);
      }
      return Unsupported;
    }

    method HandleAttach(caller: nat, objID: int, task: nat) returns (reply: Reply)
      requires Valid()
      modifies `owners, space
      ensures Valid() && reply == ReplyTo(old(owners), AttachTask(caller, objID, task))
      ensures owners == Step(old(owners), AttachTask(caller, objID, task))
    {
      hide Represents, Clean, NoPages;
      if objID >= 2 && objID < MAXTASKS {
        Redescribed(space[..], mtab[..], owners, objID, space[objID].maxpages, task, caller);
        if space[objID].thread == UNUSED {
          return Unsupported;
        }
        if space[objID].thread != 0 {
          return Locked;
        }
        space[objID] := space[objID].(thread := task);
        space[objID] := space[objID].(boss := caller);
        owners := owners[objID := owners[objID].(thread := task, boss := caller)];
        assert space[..] == old(space[..])[objID := space[objID]];
        return Success;
      }
      return Unsupported;
    }

    method HandleSetMaxpages(caller: nat, objID: int, maxpages: int) returns (reply: Reply)
      requires Valid()
      modifies `owners, space
      ensures Valid() && reply == ReplyTo(old(owners), SetMaxpages(caller, objID, maxpages))
      ensures owners == Step(old(owners), SetMaxpages(caller, objID, maxpages))
    {
      hide Represents, Clean, NoPages;
      if objID >= 2 && objID < MAXTASKS {
        Redescribed(space[..], mtab[..], owners, objID, maxpages, space[objID].thread, space[objID].boss);
        if space[objID].thread == UNUSED {
          return Unsupported;
        }
        if space[objID].thread != 0 && space[objID].boss != caller {
          return Locked;
        }
        space[objID] := space[objID].(maxpages := maxpages);
        owners := owners[objID := owners[objID].(maxpages := maxpages)];
        return Success;
      }
      return Unsupported;
    }
  }

  lemma InitialOwners(granted: seq<bool>, space: seq<AddressSpace>, mtab: seq<int>)
    requires |space| == MAXTASKS
    requires forall x :: 0 <= x < MAXTASKS ==> space[x] == AddressSpace(-1, 0, UNLIMITED, UNUSED, UNUSED)
    ensures Booted(granted, |granted|, VIDEO) == Unclaimed([], []) && Consistent(space, mtab, Unclaimed([], []))
  {
    hide PoolFrom;
    PoolContents(granted, |granted|);
    PoolBelow(granted);
    EmptyOrNot(PoolFrom(granted, |granted|));
  }

  lemma BootBounds(granted: seq<bool>, mtab: seq<int>, owners: seq<Owner>)
    requires |mtab| == |granted|
    ensures Outstanding(granted, |granted|) == Needed(|granted|) >= 0
    ensures granted == [] ==> Clean(mtab, owners) && IsPoolSize(granted, 0)
    ensures granted != [] ==> Needed(|granted|) > 0
  {
  }

  lemma NoPool(granted: seq<bool>)
    requires Outstanding(granted, 0) > 0
    ensures PoolFrom(granted, 0) == [] && IsPoolSize(granted, 0)
  {
    hide PoolFrom;
    PoolContents(granted, 0);
    EmptyOrNot(PoolFrom(granted, 0));
    forall p | 0 <= p < |granted| ensures !InPool(granted, p) {
      AboveMonotone(granted, 0, p + 1);
    }
  }

  lemma BootStep(granted: seq<bool>, i: nat)
    requires i < |granted|
    ensures Above(granted, i) == Above(granted, i + 1) + (if granted[i] then 1 else 0)
    ensures InPool(granted, i) <==> granted[i] && Outstanding(granted, i + 1) == 0
    ensures PoolFrom(granted, i)
            == if InPool(granted, i) then [i as int] + PoolFrom(granted, i + 1) else PoolFrom(granted, i + 1)
    ensures i !in PoolFrom(granted, i + 1)
  {
    PoolContents(granted, i + 1);
  }

  lemma UnclaimedStep(free: seq<int>, page: int)
    ensures page !in free ==> !Owned(Unclaimed(free, []), page)
    ensures Unclaimed([page] + free, [])
         == Unclaimed(free, [])
              [FREELIST := Unclaimed(free, [])[FREELIST].(chain := [page] + Unclaimed(free, [])[FREELIST].chain)]
  {
  }

  /** When the last page for mtab arrives, all of it is set to -1. */
  lemma FreshTable(space: seq<AddressSpace>, mtab: seq<int>, mtab': seq<int>)
    requires Consistent(space, mtab, Unclaimed([], []))
    requires forall k :: 0 <= k < |mtab'| ==> mtab'[k] == -1
    ensures Consistent(space, mtab', Unclaimed([], [])) && Clean(mtab', Unclaimed([], []))
  {
    hide Disjoint;
    var owners := Unclaimed([], []);
    forall x | 0 <= x < MAXTASKS ensures Holds(space[x], mtab', owners[x]) {
      assert Holds(space[x], mtab, owners[x]);
    }
  }

  lemma NothingYet(granted: seq<bool>, i: nat)
    requires i < |granted| && Outstanding(granted, i + 1) > 0
    ensures PoolFrom(granted, i) == [] && PoolFrom(granted, i + 1) == []
    ensures Outstanding(granted, i + 1) == 1 && granted[i] ==> IsPoolSize(granted, i)
  {
    hide PoolFrom;
    PoolContents(granted, i);
    EmptyOrNot(PoolFrom(granted, i));
    PoolContents(granted, i + 1);
    EmptyOrNot(PoolFrom(granted, i + 1));
    forall p | 0 <= p < |granted|
      ensures p < i && Outstanding(granted, i + 1) == 1 && granted[i] && granted[p] ==> InPool(granted, p)
      ensures p >= i ==> !InPool(granted, p)
    {
      if p < i {
        AboveMonotone(granted, p + 1, i);
      } else {
        AboveMonotone(granted, i + 1, p + 1);
      }
    }
  }

  lemma VideoStep(granted: seq<bool>, v: nat)
    requires v >= VIDEO
    ensures var before, after := Booted(granted, 0, v), Booted(granted, 0, v + 1);
            var free := before[FREELIST].chain;
            if v in free then
              var between := before[FREELIST := before[FREELIST].(chain := Without(free, v))];
              0 <= v < |granted| && PoolFrom(granted, 0) != [] && !Owned(between, v)
              && after == between[PHYSICAL := between[PHYSICAL].(chain := [v as int] + between[PHYSICAL].chain)]
            else after == before == before[FREELIST := before[FREELIST].(chain := Without(free, v))]
  {
    hide PoolFrom, Without, Ascending, InPool, Unclaimed, Owned;
    var pool := PoolFrom(granted, 0);
    var free, video := FreeAfter(pool, v), VideoAfter(pool, v);
    PoolContents(granted, 0);
    PoolBelow(granted);
    VideoMember(pool, v);
    AbsentUnlessIn(free, v);
    UnclaimedUpdate(free, video, Without(free, v), [v as int] + video);
    assert [] + video == video;
  }

  lemma VideoMember(pool: seq<int>, v: nat)
    requires Ascending(pool) && v >= VIDEO
    ensures v in FreeAfter(pool, v) ==> v in pool
    ensures !Owned(Unclaimed(Without(FreeAfter(pool, v), v), VideoAfter(pool, v)), v)
  {
    hide Without, Ascending;
    VideoSplit(pool, v);
    WithoutContents(FreeAfter(pool, v), v);
  }

  lemma UnclaimedUpdate(free: seq<int>, video: seq<int>, free': seq<int>, video': seq<int>)
    ensures var before, between := Unclaimed(free, video), Unclaimed(free', video);
            before[FREELIST].chain == free && before[PHYSICAL].chain == video
            && between == before[FREELIST := before[FREELIST].(chain := free')]
            && Unclaimed(free', video') == between[PHYSICAL := between[PHYSICAL].(chain := video')]
  {
  }

  ghost function GrantedFrom(granted: seq<bool>, p: nat): set<int> {
    set q | p <= q < |granted| && granted[q]
  }

  /** What a page is for: the map takes the highest granted pages, as many as hold an entry
      of four bytes for each page; the others are for clients. */
  ghost predicate ForClients(granted: seq<bool>, m: nat, p: int) {
    0 <= p < |granted| && granted[p] && |GrantedFrom(granted, p + 1)| >= m
  }

  lemma {:induction false} AboveCounts(granted: seq<bool>, p: nat)
    ensures Above(granted, p) == |GrantedFrom(granted, p)|
    decreases |granted| - p
  {
    if p < |granted| {
      AboveCounts(granted, p + 1);
      assert GrantedFrom(granted, p) == GrantedFrom(granted, p + 1) + (if granted[p] then {p as int} else {});
    } else {
      var none := GrantedFrom(granted, p);
      assert none == {};
    }
  }

  lemma PoolIsForClients(granted: seq<bool>, m: nat, p: int)
    requires 4 * |granted| <= 4096 * m < 4 * |granted| + 4096
    ensures InPool(granted, p) <==> ForClients(granted, m, p)
  {
    assert Needed(|granted|) == m;
    if 0 <= p < |granted| {
      AboveCounts(granted, p + 1);
    }
  }

  /** After boot, the free list has every page for clients outside the frame buffer,
      in ascending order, and the pages of the frame buffer are set aside. */
  lemma BootOwnership(granted: seq<bool>, m: nat)
    requires 4 * |granted| <= 4096 * m < 4 * |granted| + 4096
    ensures var owners := Booted(granted, 0, 0xC0000 / 4096);
            Ascending(owners[FREELIST].chain)
            && (forall p :: p in owners[FREELIST].chain <==>
                              ForClients(granted, m, p) && !(0xB8000 / 4096 <= p < 0xC0000 / 4096))
            && (forall p :: p in owners[PHYSICAL].chain <==>
                              ForClients(granted, m, p) && 0xB8000 / 4096 <= p < 0xC0000 / 4096)
            && forall x :: 2 <= x < MAXTASKS ==> owners[x] == Owner([], 0x7FFF_FFFF, 0xFFFF_FFFF, 0xFFFF_FFFF)
  {
    forall p
      ensures InPool(granted, p) <==> ForClients(granted, m, p)
    {
      PoolIsForClients(granted, m, p);
    }
    hide PoolFrom, FreeAfter, VideoAfter, Ascending, InPool;
    PoolContents(granted, 0);
    PoolBelow(granted);
    VideoSplit(PoolFrom(granted, 0), VIDEO_END);
  }

  lemma PoolSlot(pool: seq<int>, granted: seq<bool>, size: nat, slot: nat, i: nat)
    requires PoolMap(pool, granted, size, slot) && size == i + 1 + slot
    ensures slot < |pool| && PoolMap(pool[slot := if granted[i] then i else -1], granted, size, slot + 1)
  {
  }

  lemma PoolBounds(pool: seq<int>, granted: seq<bool>, size: nat, slot: nat, i: nat)
    requires |pool| == |granted| && i < |granted|
    ensures (forall k :: 0 <= k < |pool| ==> pool[k] == -1) ==> PoolMap(pool, granted, i, 0)
  {
  }

  lemma FindFrom(owners: seq<Owner>, thread: nat, x: nat)
    requires |owners| == MAXTASKS
    ensures Find(owners, thread, x)
            == if x >= MAXTASKS || owners[x].thread == thread then x else Find(owners, thread, x + 1)
  {
  }

  lemma FindBounds(owners: seq<Owner>, thread: nat)
    requires |owners| == MAXTASKS
    ensures 2 <= Find(owners, thread, 2) <= MAXTASKS
  {
  }

  /** After the head of the free list is removed, nobody owns it. */
  lemma HeadReleased(space: seq<AddressSpace>, mtab: seq<int>, owners: seq<Owner>, page: int)
    requires Consistent(space, mtab, owners) && owners[FREELIST].chain != [] && page == owners[FREELIST].chain[0]
    ensures Clean(mtab, owners) && |owners| == MAXTASKS
    ensures var rest := Without(owners[FREELIST].chain, page);
            rest == owners[FREELIST].chain[1..] && !Owned(owners[FREELIST := owners[FREELIST].(chain := rest)], page)
  {
    hide Clean, Holds;
    assert Distinct(owners[FREELIST].chain);
    assert page in owners[FREELIST].chain;
  }

  /** Changing a descriptor's quota and threads leaves the pages alone. */
  lemma Redescribed(space: seq<AddressSpace>, mtab: seq<int>, owners: seq<Owner>, x: nat, maxpages: int, thread: nat,
                    boss: nat)
    requires Consistent(space, mtab, owners) && x < MAXTASKS
    ensures |space| == |owners| == MAXTASKS && Holds(space[x], mtab, owners[x])
    ensures Consistent(space[x := space[x].(maxpages := maxpages, thread := thread, boss := boss)], mtab,
                       owners[x := owners[x].(maxpages := maxpages, thread := thread, boss := boss)])
  {
    hide IsChain, Distinct;
    var after := owners[x := owners[x].(maxpages := maxpages, thread := thread, boss := boss)];
    assert forall y :: 0 <= y < |owners| ==> after[y].chain == owners[y].chain;
    forall p | Owned(owners, p) ensures Owned(after, p) {
      var y :| 0 <= y < |owners| && p in owners[y].chain;
      assert p in after[y].chain;
    }
  }

  lemma ChainOf(space: seq<AddressSpace>, mtab: seq<int>, owners: seq<Owner>, x: nat)
    requires Represents(space, mtab, owners) && x < MAXTASKS
    ensures |space| == |owners| == MAXTASKS && Distinct(owners[x].chain) && Holds(space[x], mtab, owners[x])
    ensures var c := owners[x].chain;
            IsChain(mtab, space[x].root, c) && (space[x].root == -1 <==> c == [])
            && (c != [] ==> c[0] == space[x].root && 0 <= c[0] < |mtab| && mtab[c[0]] == At(c, 1))
            && forall k :: 0 <= k < |c| ==> 0 <= c[k] < |mtab|
  {
    hide Distinct;
    assert Holds(space[x], mtab, owners[x]);
  }

  lemma AbsentUnlessIn(chain: seq<int>, page: int)
    ensures page !in chain ==> Without(chain, page) == chain
  {
    if page !in chain {
      WithoutAbsent(chain, page);
    }
  }

  predicate Consistent(space: seq<AddressSpace>, mtab: seq<int>, owners: seq<Owner>) {
    Represents(space, mtab, owners) && (Clean(mtab, owners) || NoPages(owners))
  }

  lemma ReleaseFirst(space: seq<AddressSpace>, mtab: seq<int>, owners: seq<Owner>, x: nat)
    requires Consistent(space, mtab, owners) && x < MAXTASKS && owners[x].chain != []
    ensures var page := owners[x].chain[0];
            |space| == MAXTASKS && 0 <= page < |mtab|
            && Consistent(space[x := space[x].(root := mtab[page], pages := space[x].pages - 1)], mtab[page := -1],
                          owners[x := owners[x].(chain := Without(owners[x].chain, page))])
            && Clean(mtab[page := -1], owners[x := owners[x].(chain := Without(owners[x].chain, page))])
  {
    hide Clean, Without, Disjoint, Distinct;
    ChainOf(space, mtab, owners, x);
    Removed(space, mtab, owners, x, 0,
      space[x := space[x].(root := mtab[owners[x].chain[0]], pages := space[x].pages - 1)],
            mtab[owners[x].chain[0] := -1]);
    CleanRemoved(mtab, mtab[owners[x].chain[0] := -1], owners, x, 0);
  }

  lemma ReleaseInner(space: seq<AddressSpace>, mtab: seq<int>, owners: seq<Owner>, x: nat, k: nat)
    requires Consistent(space, mtab, owners) && x < MAXTASKS && 0 < k < |owners[x].chain|
    ensures var c := owners[x].chain;
            |space| == MAXTASKS && 0 <= c[k] < |mtab| && 0 <= c[k - 1] < |mtab|
            && Consistent(space[x := space[x].(pages := space[x].pages - 1)], mtab[c[k - 1] := mtab[c[k]]][c[k] := -1],
                          owners[x := owners[x].(chain := Without(c, c[k]))])
            && Clean(mtab[c[k - 1] := mtab[c[k]]][c[k] := -1], owners[x := owners[x].(chain := Without(c, c[k]))])
  {
    hide Clean, Without, Disjoint, Distinct;
    var c := owners[x].chain;
    ChainOf(space, mtab, owners, x);
    var after := mtab[c[k - 1] := mtab[c[k]]][c[k] := -1];
    Removed(space, mtab, owners, x, k, space[x := space[x].(pages := space[x].pages - 1)], after);
    CleanRemoved(mtab, after, owners, x, k);
  }

  lemma CleanRemoved(mtab: seq<int>, mtab': seq<int>, owners: seq<Owner>, x: nat, k: nat)
    requires x < |owners| && k < |owners[x].chain| && Distinct(owners[x].chain)
    requires Unlinked(mtab, mtab', owners[x].chain, k) && Clean(mtab, owners)
    ensures Clean(mtab', owners[x := owners[x].(chain := Without(owners[x].chain, owners[x].chain[k]))])
  {
    hide Without;
    var c := owners[x].chain;
    NoRepeatsWithout(c, k);
    var after := owners[x := owners[x].(chain := c[..k] + c[k + 1..])];
    forall p | 0 <= p < |mtab'| && !Owned(after, p) ensures mtab'[p] == -1 {
      if p != c[k] {
        if k > 0 {
          assert c[k - 1] == after[x].chain[k - 1] && c[k - 1] in after[x].chain;
        }
        if Owned(owners, p) {
          StillOwned(owners, x, k, p);
        }
      }
    }
  }

  lemma StillOwned(owners: seq<Owner>, x: nat, k: nat, p: int)
    requires x < |owners| && k < |owners[x].chain| && p != owners[x].chain[k] && Owned(owners, p)
    ensures var c := owners[x].chain;
            Owned(owners[x := owners[x].(chain := c[..k] + c[k + 1..])], p)
  {
    var c := owners[x].chain;
    var after := owners[x := owners[x].(chain := c[..k] + c[k + 1..])];
    var y :| 0 <= y < |owners| && p in owners[y].chain;
    if y == x {
      var j :| 0 <= j < |c| && c[j] == p;
      assert after[x].chain[if j < k then j else j - 1] == p;
    } else {
      assert p in after[y].chain;
    }
  }

  lemma CleanGained(mtab: seq<int>, owners: seq<Owner>, x: nat, page: int, root: int)
    requires x < |owners| && 0 <= page < |mtab| && Clean(mtab, owners)
    ensures Clean(mtab[page := root], owners[x := owners[x].(chain := [page] + owners[x].chain)])
  {
    var after := owners[x := owners[x].(chain := [page] + owners[x].chain)];
    assert page in after[x].chain;
    forall p | 0 <= p < |mtab| && !Owned(after, p) ensures mtab[page := root][p] == -1 {
      assert forall y :: 0 <= y < |owners| && p in owners[y].chain ==> p in after[y].chain;
    }
  }
}
