/** Page ownership: lists threaded through one array, `mtab`, with a root in each
    address space descriptor. */
module PageChains {
  import opened Wrappers

  const MAXTASKS := 10
  const FREELIST := 0
  const PHYSICAL := 1
  const UNUSED := 0xFFFF_FFFF

  datatype AddressSpace = AddressSpace(root: int, pages: int, maxpages: int, thread: nat, boss: nat)

  /** An address space as the list of its pages, the most recent first. */
  datatype Owner = Owner(chain: seq<int>, maxpages: int, thread: nat, boss: nat)

  // ---------------------------------------------------------------- representation

  /** The page at a position of a list, or the end mark behind the last. */
  function At(chain: seq<int>, k: nat): int {
    if k < |chain| then chain[k] else -1
  }

  /** Following mtab from the root visits exactly these pages and then ends. */
  predicate IsChain(mtab: seq<int>, root: int, chain: seq<int>) {
    root == At(chain, 0) &&
    forall k :: 0 <= k < |chain| ==> 0 <= chain[k] < |mtab| && mtab[chain[k]] == At(chain, k + 1)
  }

  predicate Holds(d: AddressSpace, mtab: seq<int>, o: Owner) {
    d.maxpages == o.maxpages && d.thread == o.thread && d.boss == o.boss &&
    d.pages == |o.chain| && IsChain(mtab, d.root, o.chain)
  }

  /** No page occurs twice, neither in one chain nor in two. */
  predicate Disjoint(owners: seq<Owner>) {
    (forall x :: 0 <= x < |owners| ==> Distinct(owners[x].chain)) &&
    (forall x, y, p :: 0 <= x < |owners| && 0 <= y < |owners| && x != y && p in owners[x].chain ==>
        p !in owners[y].chain)
  }

  predicate Owned(owners: seq<Owner>, page: int) {
    exists x :: 0 <= x < |owners| && page in owners[x].chain
  }

  /** Pages that nobody owns are marked -1, as is the last page of each chain. Before
      there is a free list, mtab may hold anything. */
  predicate Clean(mtab: seq<int>, owners: seq<Owner>) {
    forall p :: 0 <= p < |mtab| && !Owned(owners, p) ==> mtab[p] == -1
  }

  predicate NoPages(owners: seq<Owner>) {
    forall x :: 0 <= x < |owners| ==> owners[x].chain == []
  }

  predicate Represents(space: seq<AddressSpace>, mtab: seq<int>, owners: seq<Owner>) {
    |space| == |owners| == MAXTASKS &&
    (forall x :: 0 <= x < |space| ==> Holds(space[x], mtab, owners[x])) &&
    Disjoint(owners)
  }

  // ---------------------------------------------------------------- chains

  /** The chain without a page. */
  function Without(chain: seq<int>, page: int): seq<int> {
    if chain == [] then []
    else if chain[0] == page then chain[1..]
    else [chain[0]] + Without(chain[1..], page)
  }

  lemma {:induction false} WithoutAt(chain: seq<int>, k: nat)
    requires k < |chain| && forall j :: 0 <= j < k ==> chain[j] != chain[k]
    ensures Without(chain, chain[k]) == chain[..k] + chain[k + 1..]
    decreases |chain|
  {
    if k > 0 {
      WithoutAt(chain[1..], k - 1);
      assert chain[1..][..k - 1] + chain[1..][k..] == chain[1..k] + chain[k + 1..];
    }
  }

  lemma {:induction false} WithoutAbsent(chain: seq<int>, page: int)
    requires page !in chain
    ensures Without(chain, page) == chain
    decreases |chain|
  {
    if chain != [] {
      WithoutAbsent(chain[1..], page);
    }
  }

  /** A chain survives changes to other pages. */
  lemma ChainKeeps(mtab: seq<int>, mtab': seq<int>, root: int, chain: seq<int>)
    requires IsChain(mtab, root, chain) && |mtab'| == |mtab|
    requires forall k :: 0 <= k < |chain| && 0 <= chain[k] < |mtab| ==> mtab'[chain[k]] == mtab[chain[k]]
    ensures IsChain(mtab', root, chain)
  {
  }

  lemma CutAt(chain: seq<int>, k: nat, j: nat)
    requires k < |chain|
    ensures At(chain[..k] + chain[k + 1..], j) == At(chain, if j < k then j else j + 1)
  {
  }

  /** Taking a page out of a chain, as removepage rewrites the links. */
  lemma ChainRemove(mtab: seq<int>, mtab': seq<int>, root: int, chain: seq<int>, k: nat)
    requires IsChain(mtab, root, chain) && k < |chain| && Distinct(chain)
    requires Unlinked(mtab, mtab', chain, k)
    ensures IsChain(mtab', if k == 0 then mtab[chain[0]] else root, chain[..k] + chain[k + 1..])
  {
    hide Distinct;
    var c := chain[..k] + chain[k + 1..];
    assert k == 0 ==> mtab[chain[0]] == At(chain, 1);
    CutAt(chain, k, 0);
    forall j | 0 <= j < |c|
      ensures 0 <= c[j] < |mtab'| && mtab'[c[j]] == At(c, j + 1)
    {
      CutAt(chain, k, j);
      CutAt(chain, k, j + 1);
      RemovedLink(mtab, mtab', root, chain, k, if j < k then j else j + 1);
    }
  }

  /** The links after removepage took out the page at position k. */
  predicate Unlinked(mtab: seq<int>, mtab': seq<int>, chain: seq<int>, k: nat) {
    k < |chain| && 0 <= chain[k] < |mtab| && (k > 0 ==> 0 <= chain[k - 1] < |mtab|) &&
    mtab' == (if k == 0 then mtab else mtab[chain[k - 1] := mtab[chain[k]]])[chain[k] := -1]
  }

  lemma RemovedLink(mtab: seq<int>, mtab': seq<int>, root: int, chain: seq<int>, k: nat, i: nat)
    requires IsChain(mtab, root, chain) && i < |chain| && Distinct(chain) && Unlinked(mtab, mtab', chain, k) && i != k
    ensures 0 <= chain[i] < |mtab'| && mtab'[chain[i]] == At(chain, if i + 1 == k then k + 1 else i + 1)
  {
    assert chain[i] != chain[k];
    assert mtab[chain[i]] == At(chain, i + 1) && mtab[chain[k]] == At(chain, k + 1);
    if i + 1 < k {
      assert chain[i] != chain[k - 1];
    }
  }

  lemma ChainAdd(mtab: seq<int>, root: int, chain: seq<int>, page: int)
    requires IsChain(mtab, root, chain) && 0 <= page < |mtab| && page !in chain
    ensures IsChain(mtab[page := root], page, [page] + chain)
  {
    var c, m := [page] + chain, mtab[page := root];
    forall j | 0 <= j < |c|
      ensures 0 <= c[j] < |m| && m[c[j]] == At(c, j + 1)
    {
      assert At(c, j + 1) == At(chain, j);
      if j > 0 {
        assert c[j] == chain[j - 1] && chain[j - 1] in chain;
      }
    }
  }

  /** Replacing one chain by some of its pages, or by those and an unowned one. */
  lemma StillDisjoint(owners: seq<Owner>, x: nat, chain: seq<int>)
    requires Disjoint(owners) && x < |owners| && Distinct(chain)
    requires forall p :: p in chain ==> p in owners[x].chain || !Owned(owners, p)
    ensures Disjoint(owners[x := owners[x].(chain := chain)])
  {
    hide Distinct;
  }

  lemma NoRepeatsWithout(chain: seq<int>, k: nat)
    requires Distinct(chain) && k < |chain|
    ensures Distinct(chain[..k] + chain[k + 1..])
    ensures Without(chain, chain[k]) == chain[..k] + chain[k + 1..]
  {
    WithoutAt(chain, k);
  }

  /** removepage keeps the representation. */
  lemma Removed(space: seq<AddressSpace>, mtab: seq<int>, owners: seq<Owner>, x: nat, k: nat,
                space': seq<AddressSpace>, mtab': seq<int>)
    requires Represents(space, mtab, owners) && x < MAXTASKS && k < |owners[x].chain|
    requires var c := owners[x].chain;
             Unlinked(mtab, mtab', c, k)
             && var root := if k == 0 then mtab[c[0]] else space[x].root;
                space' == space[x := space[x].(root := root, pages := space[x].pages - 1)]
    ensures Represents(space', mtab', owners[x := owners[x].(chain := Without(owners[x].chain, owners[x].chain[k]))])
  {
    hide IsChain, Without, Distinct;
    var c := owners[x].chain;
    assert Holds(space[x], mtab, owners[x]);
    NoRepeatsWithout(c, k);
    ChainRemove(mtab, mtab', space[x].root, c, k);
    StillDisjoint(owners, x, c[..k] + c[k + 1..]);
    forall y | 0 <= y < |space'| && y != x
      ensures Holds(space'[y], mtab', owners[y])
    {
      assert Holds(space[y], mtab, owners[y]);
      assert forall i :: 0 <= i < |owners[y].chain| ==> owners[y].chain[i] in owners[y].chain;
      assert c[k] in c && (k > 0 ==> c[k - 1] in c);
      ChainKeeps(mtab, mtab', space[y].root, owners[y].chain);
    }
  }

  /** addpage keeps the representation if nobody owns the page. */
  lemma Gained(space: seq<AddressSpace>, mtab: seq<int>, owners: seq<Owner>, x: nat, page: int)
    requires Represents(space, mtab, owners) && x < MAXTASKS && 0 <= page < |mtab| && !Owned(owners, page)
    ensures Represents(space[x := space[x].(root := page, pages := space[x].pages + 1)], mtab[page := space[x].root],
                       owners[x := owners[x].(chain := [page] + owners[x].chain)])
  {
    hide IsChain;
    var c, mtab' := owners[x].chain, mtab[page := space[x].root];
    var space' := space[x := space[x].(root := page, pages := space[x].pages + 1)];
    assert Holds(space[x], mtab, owners[x]);
    assert page !in c;
    ChainAdd(mtab, space[x].root, c, page);
    assert Distinct(c);
    assert Distinct([page] + c);
    StillDisjoint(owners, x, [page] + c);
    forall y | 0 <= y < |space'| && y != x
      ensures Holds(space'[y], mtab', owners[y])
    {
      assert Holds(space[y], mtab, owners[y]);
      assert page !in owners[y].chain;
      ChainKeeps(mtab, mtab', space[y].root, owners[y].chain);
    }
  }

  // ---------------------------------------------------------------- what addpage cannot see

  /** addpage on the raw arrays: it takes any page that is not followed by another. */
  function AddPage(space: seq<AddressSpace>, mtab: seq<int>, page: int, x: nat): (seq<AddressSpace>, seq<int>, bool)
    requires x < |space| && 0 <= page < |mtab|
  {
    if mtab[page] >= 0 then (space, mtab, false)
    else (space[x := space[x].(root := page, pages := space[x].pages + 1)], mtab[page := space[x].root], true)
  }

  /** The page ends a chain. */
  predicate IsLast(owners: seq<Owner>, page: int) {
    exists x :: 0 <= x < |owners| && Ends(owners[x].chain, page)
  }

  predicate Ends(chain: seq<int>, page: int) {
    chain != [] && chain[|chain| - 1] == page
  }

  ghost predicate Sound(space: seq<AddressSpace>, mtab: seq<int>) {
    exists owners :: Represents(space, mtab, owners)
  }

  /** addpage leaves sound chains exactly if the page does not end one. */
  lemma AddPageExact(space: seq<AddressSpace>, mtab: seq<int>, owners: seq<Owner>, page: int, x: nat)
    requires Represents(space, mtab, owners) && Clean(mtab, owners) && x < MAXTASKS && 0 <= page < |mtab|
    ensures var after := AddPage(space, mtab, page, x);
            Sound(after.0, after.1) <==> !IsLast(owners, page)
  {
    hide Holds, Disjoint, Ends;
    var after := AddPage(space, mtab, page, x);
    if IsLast(owners, page) {
      var y :| 0 <= y < |owners| && Ends(owners[y].chain, page);
      LastLink(space, mtab, owners, y, page);
      if Sound(after.0, after.1) {
        var owners' :| Represents(after.0, after.1, owners');
        Corrupted(space, mtab, owners, page, x, y, owners');
      }
    } else if mtab[page] >= 0 {
      assert Represents(after.0, after.1, owners);
    } else {
      InnerLink(space, mtab, owners, page);
      Gained(space, mtab, owners, x, page);
    }
  }

  lemma LastLink(space: seq<AddressSpace>, mtab: seq<int>, owners: seq<Owner>, y: nat, page: int)
    requires Represents(space, mtab, owners) && y < |owners| && Ends(owners[y].chain, page) && 0 <= page < |mtab|
    ensures mtab[page] == -1
  {
    hide Disjoint;
    assert Holds(space[y], mtab, owners[y]);
  }

  lemma OwnedLink(space: seq<AddressSpace>, mtab: seq<int>, owners: seq<Owner>, y: nat, page: int)
    requires Represents(space, mtab, owners) && y < |owners| && page in owners[y].chain && 0 <= page < |mtab|
    ensures mtab[page] >= 0 || Ends(owners[y].chain, page)
  {
    hide Disjoint;
    assert Holds(space[y], mtab, owners[y]);
    var c := owners[y].chain;
    var k :| 0 <= k < |c| && c[k] == page;
    assert k + 1 < |c| ==> 0 <= c[k + 1];
  }

  lemma InnerLink(space: seq<AddressSpace>, mtab: seq<int>, owners: seq<Owner>, page: int)
    requires Represents(space, mtab, owners) && 0 <= page < |mtab| && mtab[page] < 0 && !IsLast(owners, page)
    ensures !Owned(owners, page)
  {
    hide Represents, Ends;
    forall y | 0 <= y < |owners| ensures page !in owners[y].chain {
      if page in owners[y].chain {
        OwnedLink(space, mtab, owners, y, page);
      }
    }
  }

  lemma LastDiffers(chain: seq<int>, k: nat)
    requires Distinct(chain) && k < |chain| - 1
    ensures chain[k] != chain[|chain| - 1]
  {
  }

  /** A chain through changed links still follows the old one up to the change. */
  lemma ChainAt(mtab: seq<int>, root: int, chain: seq<int>, k: nat)
    requires IsChain(mtab, root, chain) && k < |chain|
    ensures 0 <= chain[k] < |mtab| && mtab[chain[k]] == At(chain, k + 1)
  {
  }

  lemma {:induction false} Follows(mtab: seq<int>, mtab': seq<int>, root: int, chain: seq<int>, chain': seq<int>,
                                   from: nat, k: nat)
    requires IsChain(mtab, root, chain) && Distinct(chain) && |mtab'| == |mtab| && k < |chain|
    requires forall p :: 0 <= p < |mtab| && p != chain[|chain| - 1] ==> mtab'[p] == mtab[p]
    requires forall j :: 0 <= j < |chain'| ==> 0 <= chain'[j] < |mtab'| && mtab'[chain'[j]] == At(chain', j + 1)
    requires At(chain', from) == chain[0]
    ensures from + k < |chain'| && chain'[from + k] == chain[k]
    decreases k
  {
    hide Distinct, IsChain;
    ChainAt(mtab, root, chain, k);
    if k > 0 {
      var p, j := chain[k - 1], from + k - 1;
      Follows(mtab, mtab', root, chain, chain', from, k - 1);
      assert p != chain[|chain| - 1] by {
        LastDiffers(chain, k - 1);
      }
      ChainAt(mtab, root, chain, k - 1);
      assert chain'[j] == p && mtab'[chain'[j]] == At(chain', j + 1);
    }
  }

  lemma OnceOnly(owners: seq<Owner>, x: nat, y: nat)
    requires Disjoint(owners) && x < |owners| && y < |owners|
    ensures forall j, k :: 0 <= j < |owners[x].chain| && 0 <= k < |owners[y].chain| ==>
              owners[x].chain[j] == owners[y].chain[k] ==> x == y && j == k
  {
    assert Distinct(owners[x].chain);
    forall j, k | 0 <= j < |owners[x].chain| && 0 <= k < |owners[y].chain| && owners[x].chain[j] == owners[y].chain[k]
      ensures x == y && j == k
    {
      var p := owners[x].chain[j];
      assert p in owners[x].chain && p in owners[y].chain;
    }
  }

  /** The page would be in two places of a chain, or in two chains. */
  lemma Corrupted(space: seq<AddressSpace>, mtab: seq<int>, owners: seq<Owner>, page: int, x: nat, y: nat,
                  owners': seq<Owner>)
    requires Represents(space, mtab, owners) && x < MAXTASKS && y < |owners| && Ends(owners[y].chain, page)
    requires 0 <= page < |mtab| && mtab[page] == -1
    ensures var after := AddPage(space, mtab, page, x);
            !Represents(after.0, after.1, owners')
  {
    hide Disjoint;
    var after := AddPage(space, mtab, page, x);
    var c := owners[y].chain;
    assert Holds(space[y], mtab, owners[y]);
    OnceOnly(owners, y, y);
    if Represents(after.0, after.1, owners') {
      assert Holds(after.0[y], after.1, owners'[y]) && Holds(after.0[x], after.1, owners'[x]);
      var c' := owners'[y].chain;
      assert owners'[x].chain != [] && owners'[x].chain[0] == page;
      OnceOnly(owners', x, y);
      if x == y {
        assert after.1[c'[0]] == At(c', 1);
      }
      Follows(mtab, after.1, space[y].root, c, c', if x == y then 1 else 0, |c| - 1);
    }
  }
}
