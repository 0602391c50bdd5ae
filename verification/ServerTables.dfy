/** Function tables of the generated servers: how large they are, what they hold, and
    that every ID is dispatched to its operation. */
module ServerTables {
  import opened Graphs
  import opened Bits
  import opened Scopes
  import opened Dispatch
  import opened Wrappers

  // ---------------------------------------------------------------- sizes

  /** Doubles until the size exceeds the largest ID. */
  method TableSize(maxID: int) returns (size: nat, ghost k: nat)
    ensures size == Pow2(k) && maxID < size
    ensures size == 1 || size / 2 <= maxID
  {
    size, k := 1, 0;
    while size <= maxID
      invariant size == Pow2(k) && (size == 1 || size / 2 <= maxID)
      decreases maxID + 1 - size
    {
      size, k := size * 2, k + 1;
    }
  }

  /** A power of two above every user-level ID, and no larger than needed. */
  method GetVtableSize(tree: Tree, ids: Ids, iface: nat) returns (size: nat, ghost k: nat)
    requires WellFormed(tree) && AllAssigned(tree, ids) && iface < |tree|
    ensures size == Pow2(k)
    ensures forall id :: OffersID(tree, ids, iface, false, id) ==> id < size
    ensures size == 1 || exists id :: OffersID(tree, ids, iface, false, id) && size / 2 <= id
  {
    hide WellFormed, AllAssigned, Pow2, OffersID;
    var r := GetIDRange(tree, ids, iface);
    size, k := TableSize(r.fidMax);
    ghost var f := (id: int) => OffersID(tree, ids, iface, false, id);
    assert forall id :: f(id) <==> OffersID(tree, ids, iface, false, id);
  }

  /** Some own or inherited operation is a kernel message. */
  ghost predicate HasKernel(tree: Tree, iface: nat) {
    exists c :: Offers(tree, iface, c) && IsKernel(tree, c)
  }

  method ContainsKernelMessages(tree: Tree, iface: nat) returns (found: bool)
    requires WellFormed(tree) && iface < |tree|
    ensures found <==> HasKernel(tree, iface)
    decreases Height(tree, iface)
  {
    hide WellFormed, Height, Offers, HasKernel;
    for k := 0 to |tree[iface].operations|
      invariant forall i :: 0 <= i < k ==> !tree[iface].operations[i].kernel
    {
      if tree[iface].operations[k].kernel {
        OwnKernel(tree, iface, k);
        return true;
      }
    }
    for j := 0 to |tree[iface].superclasses|
      invariant forall i :: 0 <= i < j ==> !HasKernel(tree, tree[iface].superclasses[i])
    {
      SuperclassIsUp(tree, iface, j);
      HeightOfUp(tree, iface, tree[iface].superclasses[j]);
      var above := ContainsKernelMessages(tree, tree[iface].superclasses[j]);
      if above {
        InheritedKernel(tree, iface, j);
        return true;
      }
    }
    NoKernel(tree, iface);
    found := false;
  }

  lemma OwnKernel(tree: Tree, iface: nat, k: nat)
    requires WellFormed(tree) && iface < |tree| && k < |tree[iface].operations| && tree[iface].operations[k].kernel
    ensures HasKernel(tree, iface)
  {
    var c: OpName := (iface, k);
    OffersUnfold(tree, iface, c);
    assert IsKernel(tree, c);
  }

  lemma InheritedKernel(tree: Tree, iface: nat, j: nat)
    requires WellFormed(tree) && iface < |tree| && j < |tree[iface].superclasses|
    requires HasKernel(tree, tree[iface].superclasses[j])
    ensures HasKernel(tree, iface)
  {
    hide WellFormed;
    var c :| Offers(tree, tree[iface].superclasses[j], c) && IsKernel(tree, c);
    OffersUnfold(tree, iface, c);
  }

  lemma NoKernel(tree: Tree, iface: nat)
    requires WellFormed(tree) && iface < |tree|
    requires forall i :: 0 <= i < |tree[iface].operations| ==> !tree[iface].operations[i].kernel
    requires forall i :: 0 <= i < |tree[iface].superclasses| ==> !HasKernel(tree, tree[iface].superclasses[i])
    ensures !HasKernel(tree, iface)
  {
    hide WellFormed;
    forall c | Offers(tree, iface, c)
      ensures !IsKernel(tree, c)
    {
      OffersUnfold(tree, iface, c);
    }
  }

  /** A power of two above every kernel message number, or 0 without kernel messages. */
  method GetKtableSize(tree: Tree, ids: Ids, iface: nat) returns (size: nat)
    requires WellFormed(tree) && AllAssigned(tree, ids) && iface < |tree|
    ensures if HasKernel(tree, iface) then exists k :: size == Pow2(k) else size == 0
    ensures forall id :: OffersID(tree, ids, iface, true, id) ==> id < size
    ensures size <= 1 || exists id :: OffersID(tree, ids, iface, true, id) && size / 2 <= id
  {
    hide WellFormed, AllAssigned, Pow2, OffersID, HasKernel;
    var r := GetIDRange(tree, ids, iface);
    var found := ContainsKernelMessages(tree, iface);
    if !found {
      NoKernelIDs(tree, ids, iface);
      return 0;
    }
    ghost var k;
    size, k := TableSize(r.kidMax);
    ghost var f := (id: int) => OffersID(tree, ids, iface, true, id);
    assert forall id :: f(id) <==> OffersID(tree, ids, iface, true, id);
  }

  lemma NoKernelIDs(tree: Tree, ids: Ids, iface: nat)
    requires !HasKernel(tree, iface)
    ensures forall id :: !OffersID(tree, ids, iface, true, id)
  {
  }

  // ---------------------------------------------------------------- the tables

  type Table = seq<Option<OpName>>

  /** Slot by slot, the operation answering to the slot's number, or none. */
  ghost predicate TableFor(tree: Tree, ids: Ids, iface: nat, iid: int, table: Table) {
    forall fid: nat :: fid < |table| ==> LookedUp(tree, ids, iface, fid, iid, table[fid])
  }

  ghost predicate Unambiguous(tree: Tree, ids: Ids, iface: nat, iid: int, size: nat) {
    forall fid: nat :: fid < size ==> AtMostOne(tree, ids, iface, fid, iid)
  }

  method BuildTable(tree: Tree, ids: Ids, iface: nat, iid: int, size: nat) returns (table: Table, ok: bool)
    requires WellFormed(tree) && AllAssigned(tree, ids) && iface < |tree|
    ensures |table| == size && TableFor(tree, ids, iface, iid, table)
    ensures ok <==> Unambiguous(tree, ids, iface, iid, size)
  {
    hide LookedUp, AtMostOne, WellFormed, AllAssigned;
    table, ok := [], true;
    for fid := 0 to size
      invariant |table| == fid && TableFor(tree, ids, iface, iid, table)
      invariant ok <==> Unambiguous(tree, ids, iface, iid, fid)
    {
      var thisFunc, one := GetFunctionForID(tree, ids, iface, fid, iid);
      table, ok := table + [thisFunc], ok && one;
    }
  }

  ghost predicate ServesInterface(tree: Tree, ids: Ids, iface: nat, iid: int, low: int, high: int) {
    exists fid, c :: low <= fid <= high && Candidate(tree, ids, iface, fid, iid, c)
  }

  /** Whether some function ID in the range has an operation. */
  method FindAny(tree: Tree, ids: Ids, iface: nat, iid: int, low: int, high: int) returns (found: bool)
    requires WellFormed(tree) && AllAssigned(tree, ids) && iface < |tree|
    ensures found <==> ServesInterface(tree, ids, iface, iid, low, high)
  {
    hide WellFormed, AllAssigned, AtMostOne, Candidate;
    found := false;
    var fid := low;
    while fid <= high
      invariant found <==> ServesInterface(tree, ids, iface, iid, low, fid - 1)
      invariant low <= fid && (fid <= high + 1 || fid == low)
      decreases high - fid
    {
      var f, one := GetFunctionForID(tree, ids, iface, fid, iid);
      if f.Some? {
        assert Candidate(tree, ids, iface, fid, iid, f.value);
        found := true;
      }
      fid := fid + 1;
    }
  }

  /** The function pointers a server is generated with: a table for each interface ID that
      is served, one of discards for all others, and one for kernel messages. */
  datatype Definitions = Definitions(tables: map<int, Table>, discards: Option<Table>, kernel: Option<Table>)

  /** Slot by slot the lookup result, and just large enough: a power of two, or empty. */
  ghost predicate KernelTable(tree: Tree, ids: Ids, iface: nat, table: Table) {
    TableFor(tree, ids, iface, IID_KERNEL, table) &&
    (forall id :: OffersID(tree, ids, iface, true, id) ==> id < |table|) &&
    (if HasKernel(tree, iface) then exists k :: |table| == Pow2(k) else table == []) &&
    (|table| <= 1 || exists id :: OffersID(tree, ids, iface, true, id) && |table| / 2 <= id)
  }

  /** With a single interface ID there is always one table. */
  method BuildServerDefinitions(tree: Tree, ids: Ids, iface: nat)
    returns (d: Definitions, r: IdRange, size: nat, ghost k: nat)
    requires WellFormed(tree) && AllAssigned(tree, ids) && iface < |tree|
    ensures RangeOf(tree, ids, iface, r) && size == Pow2(k)
    ensures forall iid :: iid in d.tables <==>
              r.iidMin <= iid <= r.iidMax
              && (r.iidMin == r.iidMax || ServesInterface(tree, ids, iface, iid, r.fidMin, r.fidMax))
    ensures forall iid :: iid in d.tables ==>
              |d.tables[iid]| == size && TableFor(tree, ids, iface, iid, d.tables[iid])
    ensures forall id :: OffersID(tree, ids, iface, false, id) ==> id < size
    ensures if r.iidMin == r.iidMax then d.discards == None else d.discards == Some(seq(size, _ => None))
    ensures d.kernel.Some? ==> KernelTable(tree, ids, iface, d.kernel.value)
    ensures HasKernel(tree, iface) ==> d.kernel.Some?
    ensures AllInPlace(tree, ids, iface, d)
    ensures Small(tree, ids, iface) && !OffersInterface(tree, iface, IID_KERNEL) ==>
              (d.kernel.Some? <==> HasKernel(tree, iface))
  {
    hide *;
    size, k := GetVtableSize(tree, ids, iface);
    r := GetIDRange(tree, ids, iface);
    var tables := BuildTables(tree, ids, iface, r, size);
    var discards := None;
    if r.iidMin != r.iidMax {
      discards := Some(seq(size, _ => None));
    }
    var kernel := BuildKernelTable(tree, ids, iface, r);
    d := Definitions(tables, discards, kernel);
    DefinitionsInPlace(tree, ids, iface, d, r, size);
  }

  method BuildTables(tree: Tree, ids: Ids, iface: nat, r: IdRange, size: nat) returns (tables: map<int, Table>)
    requires WellFormed(tree) && AllAssigned(tree, ids) && iface < |tree|
    ensures forall iid :: iid in tables <==>
              r.iidMin <= iid <= r.iidMax
              && (r.iidMin == r.iidMax || ServesInterface(tree, ids, iface, iid, r.fidMin, r.fidMax))
    ensures forall iid :: iid in tables ==> |tables[iid]| == size && TableFor(tree, ids, iface, iid, tables[iid])
  {
    hide *;
    tables := map[];
    var iid := r.iidMin;
    while iid <= r.iidMax
      invariant r.iidMin <= iid
      invariant forall i :: i in tables <==>
                  r.iidMin <= i < iid && i <= r.iidMax
                  && (r.iidMin == r.iidMax || ServesInterface(tree, ids, iface, i, r.fidMin, r.fidMax))
      invariant forall i :: i in tables ==> |tables[i]| == size && TableFor(tree, ids, iface, i, tables[i])
      decreases r.iidMax - iid
    {
      var found := FindAny(tree, ids, iface, iid, r.fidMin, r.fidMax);
      if found || r.iidMin == r.iidMax {
        var table, ok := BuildTable(tree, ids, iface, iid, size);
        tables := tables[iid := table];
      }
      iid := iid + 1;
    }
  }

  /** The table for kernel messages is built exactly if the interface has any, which is what
      its declaration depends on. */
  method BuildKernelTable(tree: Tree, ids: Ids, iface: nat, r: IdRange) returns (kernel: Option<Table>)
    requires WellFormed(tree) && AllAssigned(tree, ids) && iface < |tree| && RangeOf(tree, ids, iface, r)
    requires Small(tree, ids, iface) ==> IsLowest(tree, ids, iface, true, r.kidMin)
    ensures kernel.Some? ==> KernelTable(tree, ids, iface, kernel.value)
    ensures HasKernel(tree, iface) ==> kernel.Some?
    ensures Small(tree, ids, iface) && !OffersInterface(tree, iface, IID_KERNEL) ==>
              (kernel.Some? <==> HasKernel(tree, iface))
  {
    hide WellFormed, AllAssigned, RangeOf, TableFor, AtMostOne, LookedUp, HasKernel, Small, IsLowest, OffersInterface,
         OffersID;
    var f, one := GetFunctionForID(tree, ids, iface, r.kidMin, IID_KERNEL);
    KernelTableNeeded(tree, ids, iface, r, f);
    kernel := None;
    if r.kidMin != r.kidMax || f.Some? {
      var maxKid := GetKtableSize(tree, ids, iface);
      var table, ok := BuildTable(tree, ids, iface, IID_KERNEL, maxKid);
      kernel := Some(table);
    }
  }

  lemma KernelTableNeeded(tree: Tree, ids: Ids, iface: nat, r: IdRange, f: Option<OpName>)
    requires AllAssigned(tree, ids) && RangeOf(tree, ids, iface, r)
    requires LookedUp(tree, ids, iface, r.kidMin, IID_KERNEL, f)
    ensures HasKernel(tree, iface) ==> r.kidMin != r.kidMax || f.Some?
    ensures Small(tree, ids, iface) && IsLowest(tree, ids, iface, true, r.kidMin)
            && !OffersInterface(tree, iface, IID_KERNEL) && !HasKernel(tree, iface) ==>
              r.kidMin == r.kidMax && f.None?
  {
    if HasKernel(tree, iface) {
      KernelIsFound(tree, ids, iface, r, f);
    } else {
      NoKernelRange(tree, ids, iface, r, f);
    }
  }

  lemma KernelBounds(tree: Tree, ids: Ids, iface: nat, r: IdRange)
    requires RangeOf(tree, ids, iface, r)
    ensures forall id :: OffersID(tree, ids, iface, true, id) ==> id <= r.kidMax && (id < ID_LIMIT ==> r.kidMin <= id)
    ensures r.kidMax == 0 || OffersID(tree, ids, iface, true, r.kidMax)
  {
    hide OffersID;
    ghost var f := (id: int) => OffersID(tree, ids, iface, true, id);
    assert forall id :: f(id) <==> OffersID(tree, ids, iface, true, id);
  }

  lemma KernelIsFound(tree: Tree, ids: Ids, iface: nat, r: IdRange, f: Option<OpName>)
    requires AllAssigned(tree, ids) && RangeOf(tree, ids, iface, r) && HasKernel(tree, iface)
    requires LookedUp(tree, ids, iface, r.kidMin, IID_KERNEL, f)
    ensures r.kidMin != r.kidMax || f.Some?
  {
    hide RangeOf;
    var c :| Offers(tree, iface, c) && IsKernel(tree, c);
    KernelBounds(tree, ids, iface, r);
    assert OffersID(tree, ids, iface, true, GetID(tree, ids, c));
    if r.kidMin == r.kidMax {
      assert OffersID(tree, ids, iface, true, r.kidMax);
      var d :| Offers(tree, iface, d) && d in ids && IsKernel(tree, d) && GetID(tree, ids, d) == r.kidMin;
      assert Candidate(tree, ids, iface, r.kidMin, IID_KERNEL, d);
    }
  }

  lemma NoKernelRange(tree: Tree, ids: Ids, iface: nat, r: IdRange, f: Option<OpName>)
    requires RangeOf(tree, ids, iface, r) && !HasKernel(tree, iface)
    requires LookedUp(tree, ids, iface, r.kidMin, IID_KERNEL, f)
    ensures IsLowest(tree, ids, iface, true, r.kidMin) && !OffersInterface(tree, iface, IID_KERNEL) ==>
              r.kidMin == r.kidMax && f.None?
  {
    hide RangeOf;
    KernelBounds(tree, ids, iface, r);
    NoKernelIDs(tree, ids, iface);
  }

  // ---------------------------------------------------------------- where an operation is found

  /** In a table for one number space: no number of an operation is too large, every operation
      is in the slot of its number unless another one has the same, and nothing else is
      anywhere. */
  ghost predicate Slots(tree: Tree, ids: Ids, iface: nat, iid: int, kernel: bool, table: Table) {
    (forall c: OpName, n: nat :: Offers(tree, iface, c) && OfKind(tree, c, kernel) && Numbered(tree, ids, c, n) ==>
       n < |table|) &&
    (forall c: OpName, n: nat :: InSlot(tree, ids, iface, iid, table, c, n)) &&
    (forall n: nat :: n < |table| && table[n].Some? ==>
       var c := table[n].value; Offers(tree, iface, c) && InSpace(tree, c, iid) && Numbered(tree, ids, c, n))
  }

  ghost predicate InSlot(tree: Tree, ids: Ids, iface: nat, iid: int, table: Table, c: OpName, n: nat) {
    n < |table| && Offers(tree, iface, c) && InSpace(tree, c, iid) && Numbered(tree, ids, c, n) ==>
      table[n].Some? && (!Shared(tree, ids, iface, iid, c, n) ==> table[n] == Some(c))
  }

  /** Another operation of the hierarchy has the number in the same space. */
  ghost predicate Shared(tree: Tree, ids: Ids, iface: nat, iid: int, c: OpName, n: nat) {
    exists d: OpName :: d != c && Offers(tree, iface, d) && InSpace(tree, d, iid) && Numbered(tree, ids, d, n)
  }

  lemma SlotsFilled(tree: Tree, ids: Ids, iface: nat, iid: int, kernel: bool, table: Table)
    requires TableFor(tree, ids, iface, iid, table)
    requires forall id :: OffersID(tree, ids, iface, kernel, id) ==> id < |table|
    ensures Slots(tree, ids, iface, iid, kernel, table)
  {
    hide OffersID, Candidate, Offers, Numbered, InSpace;
    forall c: OpName, n: nat | Offers(tree, iface, c) && OfKind(tree, c, kernel) && Numbered(tree, ids, c, n)
      ensures n < |table|
    {
      OffersIDIsNumbered(tree, ids, iface, kernel, n);
    }
    forall c: OpName, n: nat
      ensures InSlot(tree, ids, iface, iid, table, c, n)
    {
      SlotFilled(tree, ids, iface, iid, table, c, n);
    }
    forall n: nat | n < |table| && table[n].Some?
      ensures var c := table[n].value; Offers(tree, iface, c) && InSpace(tree, c, iid) && Numbered(tree, ids, c, n)
    {
      assert LookedUp(tree, ids, iface, n, iid, table[n]);
      CandidateIsNumbered(tree, ids, iface, n, iid, table[n].value);
    }
  }

  lemma SlotFilled(tree: Tree, ids: Ids, iface: nat, iid: int, table: Table, c: OpName, n: nat)
    requires TableFor(tree, ids, iface, iid, table)
    ensures InSlot(tree, ids, iface, iid, table, c, n)
  {
    hide Candidate, Offers, Numbered, InSpace;
    if n < |table| {
      assert LookedUp(tree, ids, iface, n, iid, table[n]);
      CandidateIsNumbered(tree, ids, iface, n, iid, c);
      if table[n].Some? {
        CandidateIsNumbered(tree, ids, iface, n, iid, table[n].value);
      }
    }
  }

  /** The interface ID of every operation that users call has a table. */
  lemma TablePresent(tree: Tree, ids: Ids, iface: nat, r: IdRange, c: OpName, n: int)
    requires RangeOf(tree, ids, iface, r) && Offers(tree, iface, c) && OfKind(tree, c, false)
    requires Numbered(tree, ids, c, n) && n < ID_LIMIT
    ensures r.iidMin <= tree[c.0].iid <= r.iidMax
            && ServesInterface(tree, ids, iface, tree[c.0].iid, r.fidMin, r.fidMax)
  {
    hide OffersID, Candidate, Numbered;
    OffersIDIsNumbered(tree, ids, iface, false, n);
    UserBounds(tree, ids, iface, r, n);
    CandidateIsNumbered(tree, ids, iface, n, tree[c.0].iid, c);
    assert Candidate(tree, ids, iface, n, tree[c.0].iid, c);
    OfferedInterface(tree, ids, iface, r, c);
  }

  lemma UserBounds(tree: Tree, ids: Ids, iface: nat, r: IdRange, n: int)
    requires RangeOf(tree, ids, iface, r) && OffersID(tree, ids, iface, false, n) && n < ID_LIMIT
    ensures r.fidMin <= n <= r.fidMax
  {
    hide OffersID;
    ghost var f := (id: int) => OffersID(tree, ids, iface, false, id);
    assert f(n);
  }

  lemma OfferedInterface(tree: Tree, ids: Ids, iface: nat, r: IdRange, c: OpName)
    requires RangeOf(tree, ids, iface, r) && Offers(tree, iface, c)
    ensures r.iidMin <= tree[c.0].iid <= r.iidMax
  {
    ghost var f := (iid: int) => OffersInterface(tree, iface, iid);
    assert OffersInterface(tree, iface, tree[c.0].iid);
    assert f(tree[c.0].iid);
  }

  /** What the definitions of a server hold, in terms of the numbers at its operations. */
  ghost predicate AllInPlace(tree: Tree, ids: Ids, iface: nat, d: Definitions) {
    (forall iid :: iid in d.tables ==> Slots(tree, ids, iface, iid, false, d.tables[iid])) &&
    (forall c: OpName, n: int ::
        Offers(tree, iface, c) && OfKind(tree, c, false) && Numbered(tree, ids, c, n) && n < ID_LIMIT ==>
       tree[c.0].iid in d.tables) &&
    (d.kernel.Some? ==> Slots(tree, ids, iface, IID_KERNEL, true, d.kernel.value)) &&
    (forall c: OpName :: Offers(tree, iface, c) && OfKind(tree, c, true) ==> d.kernel.Some?)
  }

  lemma DefinitionsInPlace(tree: Tree, ids: Ids, iface: nat, d: Definitions, r: IdRange, size: nat)
    requires RangeOf(tree, ids, iface, r)
    requires forall iid :: iid in d.tables <==>
               r.iidMin <= iid <= r.iidMax
               && (r.iidMin == r.iidMax || ServesInterface(tree, ids, iface, iid, r.fidMin, r.fidMax))
    requires forall iid :: iid in d.tables ==>
               |d.tables[iid]| == size && TableFor(tree, ids, iface, iid, d.tables[iid])
    requires forall id :: OffersID(tree, ids, iface, false, id) ==> id < size
    requires d.kernel.Some? ==> KernelTable(tree, ids, iface, d.kernel.value)
    requires HasKernel(tree, iface) ==> d.kernel.Some?
    ensures AllInPlace(tree, ids, iface, d)
  {
    hide RangeOf, OffersID, ServesInterface, TableFor, Slots, Numbered, Pow2;
    forall iid | iid in d.tables
      ensures Slots(tree, ids, iface, iid, false, d.tables[iid])
    {
      SlotsFilled(tree, ids, iface, iid, false, d.tables[iid]);
    }
    forall c: OpName, n: int | Offers(tree, iface, c) && OfKind(tree, c, false) && Numbered(tree, ids, c, n)
      && n < ID_LIMIT
      ensures tree[c.0].iid in d.tables
    {
      TablePresent(tree, ids, iface, r, c, n);
    }
    if d.kernel.Some? {
      SlotsFilled(tree, ids, iface, IID_KERNEL, true, d.kernel.value);
    }
    forall c: OpName | Offers(tree, iface, c) && OfKind(tree, c, true)
      ensures d.kernel.Some?
    {
      assert IsKernel(tree, c);
    }
  }

  // ---------------------------------------------------------------- dispatch

  ghost predicate CommonInterfaceID(tree: Tree, iface: nat) {
    iface < |tree| && tree[iface].isInterface &&
    forall s: nat :: s < |tree| && Reaches(SuperEdges(tree), iface, s) ==> tree[s].iid == tree[iface].iid
  }

  /** Operations that are called by users and not by the kernel. */
  ghost predicate Serves(tree: Tree, iface: nat, c: OpName) {
    Offers(tree, iface, c) && !IsKernel(tree, c)
  }

  /** No operation carries an explicit number, except for kernel messages, which have one
      each and are numbered in a space of their own. */
  ghost predicate Automatic(tree: Tree, iface: nat) {
    (forall c: OpName :: Serves(tree, iface, c) ==> tree[c.0].operations[c.1].fid == UNKNOWN) &&
    (HasKernel(tree, iface) ==> iface < |tree| && tree[iface].iid != IID_KERNEL)
  }

  ghost predicate NoClash(tree: Tree, ids: Ids, iface: nat) {
    (forall c: OpName :: Offers(tree, iface, c) ==> c in ids && ids[c] >= 0) &&
    (forall a: OpName, b: OpName :: Offers(tree, iface, a) && Offers(tree, iface, b) && a != b ==> ids[a] != ids[b])
  }

  /** Masking a function ID with the table size finds the operation it belongs to,
      and every other slot discards. */
  ghost predicate Dispatches(tree: Tree, ids: Ids, iface: nat, table: Table) {
    |table| >= 1 &&
    (forall c: OpName :: Serves(tree, iface, c) ==>
       c in ids && ids[c] >= 0 && And(ids[c], |table| - 1) < |table| && table[And(ids[c], |table| - 1)] == Some(c)) &&
    (forall j: nat :: j < |table| ==>
       (table[j] == None <==> forall c: OpName :: Serves(tree, iface, c) ==> c in ids && ids[c] != j))
  }

  lemma CandidateHasID(tree: Tree, ids: Ids, iface: nat, fid: int, c: OpName)
    requires CommonInterfaceID(tree, iface) && Automatic(tree, iface) && NoClash(tree, ids, iface)
    ensures Candidate(tree, ids, iface, fid, tree[iface].iid, c) <==>
              Serves(tree, iface, c) && c in ids && ids[c] == fid
  {
    if Offers(tree, iface, c) {
      assert tree[c.0].iid == tree[iface].iid;
      assert IsKernel(tree, c) ==> HasKernel(tree, iface);
      assert !IsKernel(tree, c) ==> Serves(tree, iface, c);
    }
  }

  lemma ServesOwnID(tree: Tree, ids: Ids, iface: nat, c: OpName)
    requires Automatic(tree, iface) && NoClash(tree, ids, iface) && Serves(tree, iface, c)
    ensures c in ids && ids[c] >= 0 && OffersID(tree, ids, iface, false, ids[c])
  {
  }

  lemma SlotOf(tree: Tree, ids: Ids, iface: nat, table: Table, k: nat, c: OpName)
    requires iface < |tree| && CommonInterfaceID(tree, iface) && Automatic(tree, iface) && NoClash(tree, ids, iface)
    requires |table| == Pow2(k) && TableFor(tree, ids, iface, tree[iface].iid, table)
    requires forall id :: OffersID(tree, ids, iface, false, id) ==> id < |table|
    requires Serves(tree, iface, c)
    ensures c in ids && 0 <= ids[c] < |table| && And(ids[c], |table| - 1) == ids[c] && table[ids[c]] == Some(c)
  {
    hide Offers, CommonInterfaceID, Automatic, OffersID, Candidate, Pow2, And;
    ServesOwnID(tree, ids, iface, c);
    AndBelow(ids[c], k);
    CandidateHasID(tree, ids, iface, ids[c], c);
    assert LookedUp(tree, ids, iface, ids[c], tree[iface].iid, table[ids[c]]);
    if table[ids[c]].Some? {
      CandidateHasID(tree, ids, iface, ids[c], table[ids[c]].value);
    }
  }

  lemma EmptySlot(tree: Tree, ids: Ids, iface: nat, table: Table, j: nat)
    requires iface < |tree| && CommonInterfaceID(tree, iface) && Automatic(tree, iface) && NoClash(tree, ids, iface)
    requires TableFor(tree, ids, iface, tree[iface].iid, table) && j < |table|
    ensures table[j] == None <==> forall c: OpName :: Serves(tree, iface, c) ==> c in ids && ids[c] != j
  {
    hide Offers, CommonInterfaceID, Automatic, Candidate, OffersID;
    assert LookedUp(tree, ids, iface, j, tree[iface].iid, table[j]);
    forall c: OpName
      ensures Candidate(tree, ids, iface, j, tree[iface].iid, c) <==> Serves(tree, iface, c) && c in ids && ids[c] == j
      ensures Serves(tree, iface, c) ==> c in ids
    {
      CandidateHasID(tree, ids, iface, j, c);
      if Serves(tree, iface, c) {
        ServesOwnID(tree, ids, iface, c);
      }
    }
  }

  /** The table built for an interface whose operations have clash-free automatic
      IDs dispatches correctly, and no collision is reported for any ID. */
  lemma TableDispatches(tree: Tree, ids: Ids, iface: nat, table: Table, k: nat)
    requires iface < |tree| && CommonInterfaceID(tree, iface) && Automatic(tree, iface) && NoClash(tree, ids, iface)
    requires |table| == Pow2(k) && TableFor(tree, ids, iface, tree[iface].iid, table)
    requires forall id :: OffersID(tree, ids, iface, false, id) ==> id < |table|
    ensures Dispatches(tree, ids, iface, table)
    ensures forall fid :: AtMostOne(tree, ids, iface, fid, tree[iface].iid)
  {
    hide Offers, CommonInterfaceID, Automatic, TableFor, OffersID, Candidate, Serves, NoClash;
    forall c: OpName | Serves(tree, iface, c)
      ensures c in ids && 0 <= ids[c] < |table| && And(ids[c], |table| - 1) == ids[c] && table[ids[c]] == Some(c)
    {
      SlotOf(tree, ids, iface, table, k, c);
    }
    forall j: nat | j < |table|
      ensures table[j] == None <==> forall c: OpName :: Serves(tree, iface, c) ==> c in ids && ids[c] != j
    {
      EmptySlot(tree, ids, iface, table, j);
    }
    forall fid
      ensures AtMostOne(tree, ids, iface, fid, tree[iface].iid)
    {
      OneForEach(tree, ids, iface, fid);
    }
  }

  lemma OneForEach(tree: Tree, ids: Ids, iface: nat, fid: int)
    requires iface < |tree| && CommonInterfaceID(tree, iface) && Automatic(tree, iface) && NoClash(tree, ids, iface)
    ensures AtMostOne(tree, ids, iface, fid, tree[iface].iid)
  {
    hide Offers, CommonInterfaceID, Automatic, Candidate;
    forall c: OpName
      ensures Candidate(tree, ids, iface, fid, tree[iface].iid, c) <==>
                Serves(tree, iface, c) && c in ids && ids[c] == fid
    {
      CandidateHasID(tree, ids, iface, fid, c);
    }
  }

  /** The table for kernel messages has each of them at its number, unless two share one,
      and discards at all other numbers. */
  ghost predicate KernelDispatches(tree: Tree, ids: Ids, iface: nat, table: Table) {
    (forall c: OpName :: Offers(tree, iface, c) && c in ids && IsKernel(tree, c) && GetID(tree, ids, c) >= 0 ==>
       var id := GetID(tree, ids, c);
       id < |table| && table[id].Some? && (AtMostOne(tree, ids, iface, id, IID_KERNEL) ==> table[id] == Some(c))) &&
    (!OffersInterface(tree, iface, IID_KERNEL) ==>
       forall j: nat :: j < |table| ==> (table[j] == None <==> !OffersID(tree, ids, iface, true, j)))
  }

  lemma KernelTableDispatches(tree: Tree, ids: Ids, iface: nat, table: Table)
    requires KernelTable(tree, ids, iface, table)
    ensures KernelDispatches(tree, ids, iface, table)
  {
    hide OffersInterface;
    forall c: OpName | Offers(tree, iface, c) && c in ids && IsKernel(tree, c) && GetID(tree, ids, c) >= 0
      ensures var id := GetID(tree, ids, c);
              id < |table| && table[id].Some? && (AtMostOne(tree, ids, iface, id, IID_KERNEL) ==> table[id] == Some(c))
    {
      var id := GetID(tree, ids, c);
      assert OffersID(tree, ids, iface, true, id);
      assert Candidate(tree, ids, iface, id, IID_KERNEL, c);
      assert LookedUp(tree, ids, iface, id, IID_KERNEL, table[id]);
    }
    if !OffersInterface(tree, iface, IID_KERNEL) {
      forall j: nat | j < |table|
        ensures table[j] == None <==> !OffersID(tree, ids, iface, true, j)
      {
        assert LookedUp(tree, ids, iface, j, IID_KERNEL, table[j]);
        KernelCandidates(tree, ids, iface, j);
      }
    }
  }

  lemma KernelCandidates(tree: Tree, ids: Ids, iface: nat, id: int)
    requires !OffersInterface(tree, iface, IID_KERNEL)
    ensures OffersID(tree, ids, iface, true, id) <==> exists c :: Candidate(tree, ids, iface, id, IID_KERNEL, c)
  {
    if OffersID(tree, ids, iface, true, id) {
      var c :| Offers(tree, iface, c) && c in ids && IsKernel(tree, c) && GetID(tree, ids, c) == id;
      assert Candidate(tree, ids, iface, id, IID_KERNEL, c);
    }
  }
}
