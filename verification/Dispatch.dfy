/** Function IDs in the generated servers: which operation answers to one, and the
    range of IDs an interface has to serve. An operation is named by its scope and its
    position there. */
module Dispatch {
  import opened Graphs
  import opened Scopes
  import opened Wrappers

  const IID_KERNEL := -42
  const ID_LIMIT := 0x4000_0000

  type OpName = (nat, nat)
  type Ids = map<OpName, int>

  predicate IsOperation(tree: Tree, c: OpName) {
    c.0 < |tree| && c.1 < |tree[c.0].operations|
  }

  ghost predicate AllAssigned(tree: Tree, ids: Ids) {
    forall c: OpName :: IsOperation(tree, c) ==> c in ids
  }

  /** An explicit number takes precedence over the assigned one. */
  function GetID(tree: Tree, ids: Ids, c: OpName): int
    requires IsOperation(tree, c) && c in ids
  {
    if tree[c.0].operations[c.1].fid != UNKNOWN then tree[c.0].operations[c.1].fid else ids[c]
  }

  ghost function SuperEdges(tree: Tree): (e: Edges)
    ensures e <= Up(tree)
    ensures forall x: nat, y: nat :: (x, y) in e <==> x < |tree| && y < |tree| && y in tree[x].superclasses
  {
    set x, y | x in Graphs.Below(|tree|) && y in Graphs.Below(|tree|) && y in tree[x].superclasses :: (x, y)
  }

  /** c is an own or inherited operation of the interface. */
  ghost predicate Offers(tree: Tree, iface: nat, c: OpName) {
    IsOperation(tree, c) && Reaches(SuperEdges(tree), iface, c.0)
  }

  predicate IsKernel(tree: Tree, c: OpName)
    requires IsOperation(tree, c)
  {
    tree[c.0].operations[c.1].kernel
  }

  /** c answers to the function ID in the name space of the interface ID. */
  predicate Answers(tree: Tree, ids: Ids, c: OpName, fid: int, iid: int)
    requires IsOperation(tree, c) && c in ids
  {
    fid == GetID(tree, ids, c) &&
    ((iid == tree[c.0].iid && !IsKernel(tree, c)) || (iid == IID_KERNEL && IsKernel(tree, c)))
  }

  ghost predicate Candidate(tree: Tree, ids: Ids, iface: nat, fid: int, iid: int, c: OpName) {
    Offers(tree, iface, c) && c in ids && Answers(tree, ids, c, fid, iid)
  }

  // ---------------------------------------------------------------- numbers and their spaces

  /** n is the number written at the operation, or the assigned one if none is. */
  predicate Numbered(tree: Tree, ids: Ids, c: OpName, n: int) {
    IsOperation(tree, c) && c in ids &&
    var written := tree[c.0].operations[c.1].fid;
    (written != UNKNOWN && n == written) || (written == UNKNOWN && n == ids[c])
  }

  /** Kernel messages are numbered in a space of their own, others in that of their interface. */
  predicate InSpace(tree: Tree, c: OpName, iid: int) {
    IsOperation(tree, c) &&
    if tree[c.0].operations[c.1].kernel then iid == IID_KERNEL else iid == tree[c.0].iid
  }

  predicate OfKind(tree: Tree, c: OpName, kernel: bool) {
    IsOperation(tree, c) && tree[c.0].operations[c.1].kernel == kernel
  }

  lemma CandidateIsNumbered(tree: Tree, ids: Ids, iface: nat, fid: int, iid: int, c: OpName)
    ensures Candidate(tree, ids, iface, fid, iid, c) <==>
              Offers(tree, iface, c) && Numbered(tree, ids, c, fid) && InSpace(tree, c, iid)
  {
  }

  ghost predicate LookedUp(tree: Tree, ids: Ids, iface: nat, fid: int, iid: int, result: Option<OpName>) {
    match result
    case Some(c) => Candidate(tree, ids, iface, fid, iid, c)
    case None => forall c :: !Candidate(tree, ids, iface, fid, iid, c)
  }

  ghost predicate AtMostOne(tree: Tree, ids: Ids, iface: nat, fid: int, iid: int) {
    forall a, b :: Candidate(tree, ids, iface, fid, iid, a) && Candidate(tree, ids, iface, fid, iid, b) ==> a == b
  }

  lemma OffersUnfold(tree: Tree, iface: nat, c: OpName)
    requires WellFormed(tree) && iface < |tree|
    ensures Offers(tree, iface, c) <==>
              (c.0 == iface && IsOperation(tree, c))
              || exists j :: 0 <= j < |tree[iface].superclasses| && Offers(tree, tree[iface].superclasses[j], c)
  {
    var e := SuperEdges(tree);
    ReachesUnfold(e, iface, c.0);
    if m :| (iface, m) in e && Reaches(e, m, c.0) && IsOperation(tree, c) {
      var j :| 0 <= j < |tree[iface].superclasses| && tree[iface].superclasses[j] == m;
      assert Offers(tree, tree[iface].superclasses[j], c);
    }
    if j :| 0 <= j < |tree[iface].superclasses| && Offers(tree, tree[iface].superclasses[j], c) {
      SuperclassIsUp(tree, iface, j);
      assert (iface, tree[iface].superclasses[j]) in e;
    }
  }

  // ---------------------------------------------------------------- looking up a function ID

  /** Candidates among the first k operations of the interface itself. */
  ghost predicate SeenOwn(tree: Tree, ids: Ids, iface: nat, fid: int, iid: int, k: nat, c: OpName) {
    c.0 == iface && c.1 < k && IsOperation(tree, c) && c in ids && Answers(tree, ids, c, fid, iid)
  }

  /** Candidates of the interface itself and of its first j superclasses. */
  ghost predicate Seen(tree: Tree, ids: Ids, iface: nat, fid: int, iid: int, j: nat, c: OpName)
    requires iface < |tree| && j <= |tree[iface].superclasses|
  {
    SeenOwn(tree, ids, iface, fid, iid, |tree[iface].operations|, c)
    || exists i :: 0 <= i < j && Candidate(tree, ids, tree[iface].superclasses[i], fid, iid, c)
  }

  /** `result` is one of the operations found, and `ok` says there is only one. */
  ghost predicate Summary(found: OpName -> bool, result: Option<OpName>, ok: bool) {
    (result.Some? ==> found(result.value)) &&
    (result.None? ==> forall c :: !found(c)) &&
    (ok <==> forall a, b :: found(a) && found(b) ==> a == b)
  }

  lemma SummaryJoin(f: OpName -> bool, g: OpName -> bool, h: OpName -> bool,
                    r: Option<OpName>, ok: bool, s: Option<OpName>, also: bool)
    requires Summary(f, r, ok) && Summary(g, s, also)
    requires forall c :: h(c) <==> f(c) || g(c)
    ensures Summary(h, if r.Some? then r else s, ok && also && (r.None? || s.None? || r == s))
  {
    if r.Some? {
      assert h(r.value);
    }
    if s.Some? {
      assert h(s.value);
    }
    var all := ok && also && (r.None? || s.None? || r == s);
    if !all {
      if !ok {
        var a, b :| f(a) && f(b) && a != b;
        assert h(a) && h(b);
      } else if !also {
        var a, b :| g(a) && g(b) && a != b;
        assert h(a) && h(b);
      }
    }
  }

  lemma SummaryAdd(f: OpName -> bool, h: OpName -> bool, c: OpName, r: Option<OpName>, ok: bool)
    requires Summary(f, r, ok) && !f(c)
    requires forall x :: h(x) <==> f(x) || x == c
    ensures Summary(h, Some(c), ok && r.None?)
  {
    if r.Some? {
      assert h(r.value) && h(c);
    }
    if !ok {
      var a, b :| f(a) && f(b) && a != b;
      assert h(a) && h(b);
    }
  }

  lemma SummarySame(f: OpName -> bool, h: OpName -> bool, r: Option<OpName>, ok: bool)
    requires Summary(f, r, ok)
    requires forall x :: h(x) <==> f(x)
    ensures Summary(h, r, ok)
  {
    if !ok {
      var a, b :| f(a) && f(b) && a != b;
      assert h(a) && h(b);
    }
  }

  /** First loop of the lookup: the operations of the interface itself. */
  method OwnFunctionForID(tree: Tree, ids: Ids, iface: nat, fid: int, iid: int)
      returns (result: Option<OpName>, ok: bool)
    requires AllAssigned(tree, ids) && iface < |tree|
    ensures Summary(c => SeenOwn(tree, ids, iface, fid, iid, |tree[iface].operations|, c), result, ok)
  {
    hide Summary;
    result, ok := None, true;
    EmptySummary(c => SeenOwn(tree, ids, iface, fid, iid, 0, c));
    for k := 0 to |tree[iface].operations|
      invariant Summary(c => SeenOwn(tree, ids, iface, fid, iid, k, c), result, ok)
    {
      var op := (iface, k);
      ghost var before, after := c => SeenOwn(tree, ids, iface, fid, iid, k, c),
        c => SeenOwn(tree, ids, iface, fid, iid, k + 1, c);
      assert IsOperation(tree, op);
      if Answers(tree, ids, op, fid, iid) {
        SummaryAdd(before, after, op, result, ok);
        ok := ok && result.None?;
        result := Some(op);
      } else {
        SummarySame(before, after, result, ok);
      }
    }
  }

  lemma EmptySummary(f: OpName -> bool)
    requires forall c :: !f(c)
    ensures Summary(f, None, true)
  {
  }

  /** The operation answering to a function ID. `ok` is false when the source
      reports a collision. */
  method GetFunctionForID(tree: Tree, ids: Ids, iface: nat, fid: int, iid: int)
      returns (result: Option<OpName>, ok: bool)
    requires WellFormed(tree) && AllAssigned(tree, ids) && iface < |tree|
    ensures LookedUp(tree, ids, iface, fid, iid, result) && (ok <==> AtMostOne(tree, ids, iface, fid, iid))
    decreases Height(tree, iface)
  {
    hide Summary, Height, Candidate, SeenOwn, Seen, WellFormed, AllAssigned, LookedUp, AtMostOne;
    result, ok := OwnFunctionForID(tree, ids, iface, fid, iid);
    SeenSteps(tree, ids, iface, fid, iid);
    SummarySame(c => SeenOwn(tree, ids, iface, fid, iid, |tree[iface].operations|, c),
      c => Seen(tree, ids, iface, fid, iid, 0, c), result, ok);
    for j := 0 to |tree[iface].superclasses|
      invariant Summary(c => Seen(tree, ids, iface, fid, iid, j, c), result, ok)
    {
      SuperclassIsUp(tree, iface, j);
      HeightOfUp(tree, iface, tree[iface].superclasses[j]);
      var scResult, scOk := GetFunctionForID(tree, ids, tree[iface].superclasses[j], fid, iid);
      LookupIsSummary(tree, ids, tree[iface].superclasses[j], fid, iid, scResult, scOk);
      SummaryJoin(c => Seen(tree, ids, iface, fid, iid, j, c),
        c => Candidate(tree, ids, tree[iface].superclasses[j], fid, iid, c),
                  c => Seen(tree, ids, iface, fid, iid, j + 1, c), result, ok, scResult, scOk);
      ok := ok && scOk;
      if scResult.Some? {
        if result.None? || result == scResult {
          result := scResult;
        } else {
          ok := false;
        }
      }
    }
    forall c
      ensures Seen(tree, ids, iface, fid, iid, |tree[iface].superclasses|, c) <==>
                Candidate(tree, ids, iface, fid, iid, c)
    {
      SeenIsCandidate(tree, ids, iface, fid, iid, c);
    }
    SummarySame(c => Seen(tree, ids, iface, fid, iid, |tree[iface].superclasses|, c),
                c => Candidate(tree, ids, iface, fid, iid, c), result, ok);
    LookupIsSummary(tree, ids, iface, fid, iid, result, ok);
  }

  lemma LookupIsSummary(tree: Tree, ids: Ids, iface: nat, fid: int, iid: int, result: Option<OpName>, ok: bool)
    ensures Summary(c => Candidate(tree, ids, iface, fid, iid, c), result, ok) <==>
              LookedUp(tree, ids, iface, fid, iid, result) && (ok <==> AtMostOne(tree, ids, iface, fid, iid))
  {
    hide Candidate;
    var f := (c: OpName) => Candidate(tree, ids, iface, fid, iid, c);
    assert forall c: OpName :: f(c) <==> Candidate(tree, ids, iface, fid, iid, c);
  }

  lemma SeenSteps(tree: Tree, ids: Ids, iface: nat, fid: int, iid: int)
    requires iface < |tree|
    ensures forall c :: Seen(tree, ids, iface, fid, iid, 0, c) <==>
              SeenOwn(tree, ids, iface, fid, iid, |tree[iface].operations|, c)
    ensures forall j: nat, c | j < |tree[iface].superclasses| ::
              Seen(tree, ids, iface, fid, iid, j + 1, c) <==>
                Seen(tree, ids, iface, fid, iid, j, c) || Candidate(tree, ids, tree[iface].superclasses[j], fid, iid, c)
  {
  }

  lemma SeenIsCandidate(tree: Tree, ids: Ids, iface: nat, fid: int, iid: int, c: OpName)
    requires WellFormed(tree) && iface < |tree|
    ensures Seen(tree, ids, iface, fid, iid, |tree[iface].superclasses|, c) <==>
              Candidate(tree, ids, iface, fid, iid, c)
  {
    OffersUnfold(tree, iface, c);
    if Candidate(tree, ids, iface, fid, iid, c) && c.0 != iface {
      var j :| 0 <= j < |tree[iface].superclasses| && Offers(tree, tree[iface].superclasses[j], c);
      assert Candidate(tree, ids, tree[iface].superclasses[j], fid, iid, c);
    }
  }

  // ---------------------------------------------------------------- table sizes

  /** The bounds of a set of numbers as the source computes them: the upper bound
      is the largest number, or 0; the lower bound is below every number under
      the initial value of the search. */
  ghost predicate Bounds(found: int -> bool, low: int, high: int) {
    (forall id :: found(id) ==> id <= high && (id < ID_LIMIT ==> low <= id)) &&
    high >= 0 && (high == 0 || found(high))
  }

  datatype IdRange = IdRange(iidMin: int, iidMax: int, fidMin: int, fidMax: int, kidMin: int, kidMax: int)

  ghost predicate OffersID(tree: Tree, ids: Ids, iface: nat, kernel: bool, id: int) {
    exists c :: Offers(tree, iface, c) && c in ids && IsKernel(tree, c) == kernel && GetID(tree, ids, c) == id
  }

  /** The interface IDs of the interface and all its superclasses. */
  ghost predicate OffersInterface(tree: Tree, iface: nat, iid: int) {
    exists s: nat :: Reaches(SuperEdges(tree), iface, s) && s < |tree| && tree[s].iid == iid
  }

  /** Exact bounds of a nonempty set of numbers. */
  ghost predicate Spans(found: int -> bool, low: int, high: int) {
    (forall id :: found(id) ==> low <= id <= high) && found(low) && found(high)
  }

  ghost predicate RangeOf(tree: Tree, ids: Ids, iface: nat, r: IdRange) {
    Bounds(id => OffersID(tree, ids, iface, false, id), r.fidMin, r.fidMax) &&
    Bounds(id => OffersID(tree, ids, iface, true, id), r.kidMin, r.kidMax) &&
    Spans(iid => OffersInterface(tree, iface, iid), r.iidMin, r.iidMax)
  }

  function Min(a: int, b: int): int { if a < b then a else b }

  function Max(a: int, b: int): int { if a > b then a else b }

  /** The IDs of the range are the numbers of the operations. */
  lemma OffersIDIsNumbered(tree: Tree, ids: Ids, iface: nat, kernel: bool, id: int)
    ensures OffersID(tree, ids, iface, kernel, id) <==>
              exists c: OpName :: Offers(tree, iface, c) && OfKind(tree, c, kernel) && Numbered(tree, ids, c, id)
  {
    if OffersID(tree, ids, iface, kernel, id) {
      var c :| Offers(tree, iface, c) && c in ids && IsKernel(tree, c) == kernel && GetID(tree, ids, c) == id;
      assert Numbered(tree, ids, c, id);
    }
    if c: OpName :| Offers(tree, iface, c) && OfKind(tree, c, kernel) && Numbered(tree, ids, c, id) {
      assert IsKernel(tree, c) == kernel && GetID(tree, ids, c) == id;
    }
  }

  lemma BoundsJoin(f: int -> bool, g: int -> bool, h: int -> bool, a: int, b: int, c: int, d: int)
    requires Bounds(f, a, b) && Bounds(g, c, d)
    requires forall id :: h(id) <==> f(id) || g(id)
    ensures Bounds(h, Min(a, c), Max(b, d))
  {
  }

  lemma BoundsAdd(f: int -> bool, h: int -> bool, a: int, b: int, id: int)
    requires Bounds(f, a, b)
    requires forall x :: h(x) <==> f(x) || x == id
    ensures Bounds(h, Min(a, id), Max(b, id))
  {
    assert h(id);
  }

  lemma BoundsSame(f: int -> bool, h: int -> bool, a: int, b: int)
    requires Bounds(f, a, b)
    requires forall x :: h(x) <==> f(x)
    ensures Bounds(h, if a == ID_LIMIT then b else a, b)
    ensures Bounds(h, a, b)
  {
  }

  lemma NoBounds(f: int -> bool)
    requires forall id :: !f(id)
    ensures Bounds(f, ID_LIMIT, 0)
  {
  }

  lemma SpansJoin(f: int -> bool, g: int -> bool, h: int -> bool, a: int, b: int, c: int, d: int)
    requires Spans(f, a, b) && Spans(g, c, d)
    requires forall id :: h(id) <==> f(id) || g(id)
    ensures Spans(h, Min(a, c), Max(b, d))
  {
  }

  lemma SpansSame(f: int -> bool, h: int -> bool, a: int, b: int)
    requires Spans(f, a, b)
    requires forall x :: h(x) <==> f(x)
    ensures Spans(h, a, b)
  {
  }

  /** IDs of the first k operations of the interface itself. */
  ghost predicate OwnID(tree: Tree, ids: Ids, iface: nat, kernel: bool, k: nat, id: int)
    requires iface < |tree|
  {
    exists i: nat :: i < k && i < |tree[iface].operations| && (iface, i) in ids
      && IsKernel(tree, (iface, i)) == kernel && GetID(tree, ids, (iface, i)) == id
  }

  ghost predicate SeenID(tree: Tree, ids: Ids, iface: nat, kernel: bool, j: nat, id: int)
    requires iface < |tree| && j <= |tree[iface].superclasses|
  {
    OwnID(tree, ids, iface, kernel, |tree[iface].operations|, id)
    || exists i :: 0 <= i < j && OffersID(tree, ids, tree[iface].superclasses[i], kernel, id)
  }

  ghost predicate SeenInterface(tree: Tree, iface: nat, j: nat, iid: int)
    requires iface < |tree| && j <= |tree[iface].superclasses|
  {
    iid == tree[iface].iid || exists i :: 0 <= i < j && OffersInterface(tree, tree[iface].superclasses[i], iid)
  }

  lemma SeenIDIsOffered(tree: Tree, ids: Ids, iface: nat, kernel: bool, id: int)
    requires WellFormed(tree) && iface < |tree|
    ensures SeenID(tree, ids, iface, kernel, |tree[iface].superclasses|, id) <==> OffersID(tree, ids, iface, kernel, id)
  {
    if OffersID(tree, ids, iface, kernel, id) {
      var c :| Offers(tree, iface, c) && c in ids && IsKernel(tree, c) == kernel && GetID(tree, ids, c) == id;
      OffersUnfold(tree, iface, c);
      if c.0 == iface {
        assert c == (iface, c.1);
      }
    }
    if SeenID(tree, ids, iface, kernel, |tree[iface].superclasses|, id) {
      if OwnID(tree, ids, iface, kernel, |tree[iface].operations|, id) {
        var i: nat :| i < |tree[iface].operations| && (iface, i) in ids
          && IsKernel(tree, (iface, i)) == kernel && GetID(tree, ids, (iface, i)) == id;
        OffersUnfold(tree, iface, (iface, i));
      } else {
        var i :| 0 <= i < |tree[iface].superclasses| && OffersID(tree, ids, tree[iface].superclasses[i], kernel, id);
        var c :| Offers(tree, tree[iface].superclasses[i], c) && c in ids && IsKernel(tree, c) == kernel
          && GetID(tree, ids, c) == id;
        OffersUnfold(tree, iface, c);
      }
    }
  }

  lemma SeenInterfaceIsOffered(tree: Tree, iface: nat, iid: int)
    requires WellFormed(tree) && iface < |tree|
    ensures SeenInterface(tree, iface, |tree[iface].superclasses|, iid) <==> OffersInterface(tree, iface, iid)
  {
    var e := SuperEdges(tree);
    ReachesSelf(e, iface);
    if OffersInterface(tree, iface, iid) {
      var s: nat :| Reaches(e, iface, s) && s < |tree| && tree[s].iid == iid;
      if s != iface {
        var m := FirstEdge(e, iface, s);
        var i :| 0 <= i < |tree[iface].superclasses| && tree[iface].superclasses[i] == m;
        assert OffersInterface(tree, tree[iface].superclasses[i], iid);
      }
    }
    if i :| 0 <= i < |tree[iface].superclasses| && OffersInterface(tree, tree[iface].superclasses[i], iid) {
      SuperclassIsUp(tree, iface, i);
      var m := tree[iface].superclasses[i];
      var s: nat :| Reaches(e, m, s) && s < |tree| && tree[s].iid == iid;
      ReachesEdge(e, iface, m);
      ReachesTransitive(e, iface, m, s);
    }
  }

  // ---------------------------------------------------------------- the exact lower bounds

  ghost predicate Small(tree: Tree, ids: Ids, iface: nat) {
    forall kernel, id :: OffersID(tree, ids, iface, kernel, id) ==> id < ID_LIMIT
  }

  /** An interface without superclasses and without an operation of the given kind. */
  ghost predicate IsBare(tree: Tree, s: nat, kernel: bool) {
    s < |tree| && tree[s].superclasses == []
    && forall i :: 0 <= i < |tree[s].operations| ==> IsKernel(tree, (s, i)) != kernel
  }

  /** The numbers that decide the lower bound: the IDs of the interface and its superclasses,
      and 0 if one of these is bare, because the search then starts over from 0 there. */
  ghost predicate CountsFor(tree: Tree, ids: Ids, iface: nat, kernel: bool, id: int) {
    OffersID(tree, ids, iface, kernel, id) ||
    (id == 0 && exists s: nat :: Reaches(SuperEdges(tree), iface, s) && IsBare(tree, s, kernel))
  }

  ghost predicate IsLowest(tree: Tree, ids: Ids, iface: nat, kernel: bool, low: int) {
    CountsFor(tree, ids, iface, kernel, low) && forall id :: CountsFor(tree, ids, iface, kernel, id) ==> low <= id
  }

  ghost predicate CountsSoFar(tree: Tree, ids: Ids, iface: nat, kernel: bool, j: nat, id: int)
    requires iface < |tree| && j <= |tree[iface].superclasses|
  {
    OwnID(tree, ids, iface, kernel, |tree[iface].operations|, id)
    || exists i :: 0 <= i < j && CountsFor(tree, ids, tree[iface].superclasses[i], kernel, id)
  }

  ghost predicate LowestSoFar(tree: Tree, ids: Ids, iface: nat, kernel: bool, j: nat, low: int)
    requires iface < |tree| && j <= |tree[iface].superclasses|
  {
    (if low == ID_LIMIT then j == 0 else low < ID_LIMIT && CountsSoFar(tree, ids, iface, kernel, j, low)) &&
    forall id :: CountsSoFar(tree, ids, iface, kernel, j, id) ==> low <= id && id < ID_LIMIT
  }

  lemma OwnIsOffered(tree: Tree, ids: Ids, iface: nat, kernel: bool, id: int)
    requires WellFormed(tree) && iface < |tree| && OwnID(tree, ids, iface, kernel, |tree[iface].operations|, id)
    ensures OffersID(tree, ids, iface, kernel, id)
  {
    hide OwnID;
    assert SeenID(tree, ids, iface, kernel, |tree[iface].superclasses|, id);
    SeenIDIsOffered(tree, ids, iface, kernel, id);
  }

  lemma SmallAbove(tree: Tree, ids: Ids, iface: nat, j: nat)
    requires WellFormed(tree) && iface < |tree| && j < |tree[iface].superclasses|
    ensures Small(tree, ids, iface) ==> Small(tree, ids, tree[iface].superclasses[j])
  {
    hide OffersID, OwnID;
    forall kernel, id | OffersID(tree, ids, tree[iface].superclasses[j], kernel, id)
      ensures OffersID(tree, ids, iface, kernel, id)
    {
      assert SeenID(tree, ids, iface, kernel, |tree[iface].superclasses|, id);
      SeenIDIsOffered(tree, ids, iface, kernel, id);
    }
  }

  lemma LowestStart(tree: Tree, ids: Ids, iface: nat, kernel: bool, low: int, high: int)
    requires WellFormed(tree) && iface < |tree|
    requires Bounds(id => OwnID(tree, ids, iface, kernel, |tree[iface].operations|, id), low, high)
    requires low == ID_LIMIT || (low < ID_LIMIT && OwnID(tree, ids, iface, kernel, |tree[iface].operations|, low))
    ensures Small(tree, ids, iface) ==> LowestSoFar(tree, ids, iface, kernel, 0, low)
  {
    hide OwnID, OffersID;
    var f := id => OwnID(tree, ids, iface, kernel, |tree[iface].operations|, id);
    if Small(tree, ids, iface) {
      forall id | CountsSoFar(tree, ids, iface, kernel, 0, id)
        ensures low <= id && id < ID_LIMIT
      {
        OwnIsOffered(tree, ids, iface, kernel, id);
        assert f(id);
      }
    }
  }

  lemma LowestStep(tree: Tree, ids: Ids, iface: nat, kernel: bool, j: nat, low: int, above: int)
    requires iface < |tree| && j < |tree[iface].superclasses|
    requires Small(tree, ids, tree[iface].superclasses[j])
    requires LowestSoFar(tree, ids, iface, kernel, j, low)
    requires IsLowest(tree, ids, tree[iface].superclasses[j], kernel, above)
    ensures LowestSoFar(tree, ids, iface, kernel, j + 1, Min(above, low))
  {
    hide OwnID, OffersID, CountsFor, CountsSoFar, Small;
    var s, next := tree[iface].superclasses[j], j + 1;
    SmallCounts(tree, ids, s, kernel, above);
    CountsStep(tree, ids, iface, kernel, j, Min(above, low));
    forall id | CountsSoFar(tree, ids, iface, kernel, next, id)
      ensures Min(above, low) <= id && id < ID_LIMIT
    {
      CountsStep(tree, ids, iface, kernel, j, id);
      if CountsFor(tree, ids, s, kernel, id) {
        SmallCounts(tree, ids, s, kernel, id);
      }
    }
  }

  lemma SmallCounts(tree: Tree, ids: Ids, s: nat, kernel: bool, id: int)
    requires Small(tree, ids, s) && CountsFor(tree, ids, s, kernel, id)
    ensures id < ID_LIMIT
  {
  }

  lemma CountsStep(tree: Tree, ids: Ids, iface: nat, kernel: bool, j: nat, id: int)
    requires iface < |tree| && j < |tree[iface].superclasses|
    ensures CountsSoFar(tree, ids, iface, kernel, j + 1, id) <==>
              CountsSoFar(tree, ids, iface, kernel, j, id)
                || CountsFor(tree, ids, tree[iface].superclasses[j], kernel, id)
  {
  }

  /** Every number that decides the bound comes from the interface or from a superclass,
      unless it is the 0 of the interface itself. */
  lemma CountsUnfold(tree: Tree, ids: Ids, iface: nat, kernel: bool, id: int)
    requires WellFormed(tree) && iface < |tree|
    ensures CountsFor(tree, ids, iface, kernel, id) <==>
              CountsSoFar(tree, ids, iface, kernel, |tree[iface].superclasses|, id)
                || (id == 0 && IsBare(tree, iface, kernel))
  {
    hide OwnID, OffersID, IsBare;
    var e := SuperEdges(tree);
    SeenIDIsOffered(tree, ids, iface, kernel, id);
    ReachesSelf(e, iface);
    if s: nat :| Reaches(e, iface, s) && IsBare(tree, s, kernel) && s != iface {
      var m := FirstEdge(e, iface, s);
      var i :| 0 <= i < |tree[iface].superclasses| && tree[iface].superclasses[i] == m;
      assert CountsFor(tree, ids, tree[iface].superclasses[i], kernel, 0);
    }
    if i :| 0 <= i < |tree[iface].superclasses| && CountsFor(tree, ids, tree[iface].superclasses[i], kernel, id) {
      var m := tree[iface].superclasses[i];
      SuperclassIsUp(tree, iface, i);
      ReachesEdge(e, iface, m);
      if s: nat :| Reaches(e, m, s) && IsBare(tree, s, kernel) {
        ReachesTransitive(e, iface, m, s);
      }
    }
  }

  lemma LowestEnd(tree: Tree, ids: Ids, iface: nat, kernel: bool, low: int, high: int)
    requires WellFormed(tree) && AllAssigned(tree, ids) && iface < |tree|
    requires LowestSoFar(tree, ids, iface, kernel, |tree[iface].superclasses|, low)
    requires Bounds(id => SeenID(tree, ids, iface, kernel, |tree[iface].superclasses|, id), low, high)
    ensures IsLowest(tree, ids, iface, kernel, if low == ID_LIMIT then high else low)
  {
    hide OwnID, OffersID, CountsFor, CountsSoFar, IsBare, AllAssigned;
    var m := |tree[iface].superclasses|;
    forall id
      ensures CountsFor(tree, ids, iface, kernel, id) <==>
                CountsSoFar(tree, ids, iface, kernel, m, id) || (id == 0 && IsBare(tree, iface, kernel))
    {
      CountsUnfold(tree, ids, iface, kernel, id);
    }
    BareExactly(tree, ids, iface, kernel);
    forall id | SeenID(tree, ids, iface, kernel, m, id)
      ensures CountsSoFar(tree, ids, iface, kernel, m, id)
    {
      SeenCounts(tree, ids, iface, kernel, id);
    }
    var f := id => SeenID(tree, ids, iface, kernel, m, id);
    assert high == 0 || f(high);
  }

  lemma SeenCounts(tree: Tree, ids: Ids, iface: nat, kernel: bool, id: int)
    requires iface < |tree| && SeenID(tree, ids, iface, kernel, |tree[iface].superclasses|, id)
    ensures CountsSoFar(tree, ids, iface, kernel, |tree[iface].superclasses|, id)
  {
  }

  lemma BareExactly(tree: Tree, ids: Ids, iface: nat, kernel: bool)
    requires AllAssigned(tree, ids) && iface < |tree|
    ensures IsBare(tree, iface, kernel) <==>
              tree[iface].superclasses == [] && forall id :: !CountsSoFar(tree, ids, iface, kernel, 0, id)
  {
    forall i | 0 <= i < |tree[iface].operations| && IsKernel(tree, (iface, i)) == kernel
      ensures CountsSoFar(tree, ids, iface, kernel, 0, GetID(tree, ids, (iface, i)))
    {
      assert IsOperation(tree, (iface, i));
    }
  }

  /** First loop of the range computation: the operations of the interface itself. */
  method OwnIDRange(tree: Tree, ids: Ids, iface: nat, kernel: bool) returns (low: int, high: int)
    requires AllAssigned(tree, ids) && iface < |tree|
    ensures Bounds(id => OwnID(tree, ids, iface, kernel, |tree[iface].operations|, id), low, high)
    ensures low == ID_LIMIT || (low < ID_LIMIT && OwnID(tree, ids, iface, kernel, |tree[iface].operations|, low))
  {
    hide Bounds;
    low, high := ID_LIMIT, 0;
    NoBounds(id => OwnID(tree, ids, iface, kernel, 0, id));
    for k := 0 to |tree[iface].operations|
      invariant Bounds(id => OwnID(tree, ids, iface, kernel, k, id), low, high)
      invariant low == ID_LIMIT || (low < ID_LIMIT && OwnID(tree, ids, iface, kernel, k, low))
    {
      var op := (iface, k);
      assert IsOperation(tree, op);
      ghost var before, after := id => OwnID(tree, ids, iface, kernel, k, id),
        id => OwnID(tree, ids, iface, kernel, k + 1, id);
      var opID := GetID(tree, ids, op);
      if IsKernel(tree, op) == kernel {
        forall id ensures after(id) <==> before(id) || id == opID {
          OwnIDStep(tree, ids, iface, kernel, k, id);
        }
        OwnIDStep(tree, ids, iface, kernel, k, low);
        BoundsAdd(before, after, low, high, opID);
        low := if opID < low then opID else low;
        high := if opID > high then opID else high;
      } else {
        forall id ensures after(id) <==> before(id) {
          OwnIDStep(tree, ids, iface, kernel, k, id);
        }
        OwnIDStep(tree, ids, iface, kernel, k, low);
        BoundsSame(before, after, low, high);
      }
    }
  }

  lemma OwnIDStep(tree: Tree, ids: Ids, iface: nat, kernel: bool, k: nat, id: int)
    requires iface < |tree| && k < |tree[iface].operations| && (iface, k) in ids
    ensures OwnID(tree, ids, iface, kernel, k + 1, id) <==>
              OwnID(tree, ids, iface, kernel, k, id)
              || (IsKernel(tree, (iface, k)) == kernel && GetID(tree, ids, (iface, k)) == id)
  {
  }

  /** The ranges of function IDs, kernel IDs and interface IDs over the interface
      and all its superclasses. */
  method GetIDRange(tree: Tree, ids: Ids, iface: nat) returns (r: IdRange)
    requires WellFormed(tree) && AllAssigned(tree, ids) && iface < |tree|
    ensures RangeOf(tree, ids, iface, r)
    ensures Small(tree, ids, iface) ==>
              IsLowest(tree, ids, iface, false, r.fidMin) && IsLowest(tree, ids, iface, true, r.kidMin)
    decreases Height(tree, iface)
  {
    hide Bounds, Height, OwnID, OffersID, OffersInterface, SeenID, SeenInterface, WellFormed, AllAssigned, Small,
         IsLowest, LowestSoFar;
    var fidMin, fidMax := OwnIDRange(tree, ids, iface, false);
    var kidMin, kidMax := OwnIDRange(tree, ids, iface, true);
    var iidMin, iidMax := tree[iface].iid, tree[iface].iid;
    RangeStart(tree, ids, iface, fidMin, fidMax, kidMin, kidMax);
    LowestStart(tree, ids, iface, false, fidMin, fidMax);
    LowestStart(tree, ids, iface, true, kidMin, kidMax);
    for j := 0 to |tree[iface].superclasses|
      invariant RangeSoFar(tree, ids, iface, j, IdRange(iidMin, iidMax, fidMin, fidMax, kidMin, kidMax))
      invariant Small(tree, ids, iface) ==>
                  LowestSoFar(tree, ids, iface, false, j, fidMin) && LowestSoFar(tree, ids, iface, true, j, kidMin)
    {
      SuperclassIsUp(tree, iface, j);
      HeightOfUp(tree, iface, tree[iface].superclasses[j]);
      SmallAbove(tree, ids, iface, j);
      var sc := GetIDRange(tree, ids, tree[iface].superclasses[j]);
      RangeStep(tree, ids, iface, j, IdRange(iidMin, iidMax, fidMin, fidMax, kidMin, kidMax), sc);
      if Small(tree, ids, iface) {
        LowestStep(tree, ids, iface, false, j, fidMin, sc.fidMin);
        LowestStep(tree, ids, iface, true, j, kidMin, sc.kidMin);
      }
      fidMin := if sc.fidMin < fidMin then sc.fidMin else fidMin;
      fidMax := if sc.fidMax > fidMax then sc.fidMax else fidMax;
      iidMin := if sc.iidMin < iidMin then sc.iidMin else iidMin;
      iidMax := if sc.iidMax > iidMax then sc.iidMax else iidMax;
      kidMin := if sc.kidMin < kidMin then sc.kidMin else kidMin;
      kidMax := if sc.kidMax > kidMax then sc.kidMax else kidMax;
    }
    RangeEnd(tree, ids, iface, IdRange(iidMin, iidMax, fidMin, fidMax, kidMin, kidMax));
    if Small(tree, ids, iface) {
      LowestEnd(tree, ids, iface, false, fidMin, fidMax);
      LowestEnd(tree, ids, iface, true, kidMin, kidMax);
    }
    if fidMin == ID_LIMIT {
      fidMin := fidMax;
    }
    if kidMin == ID_LIMIT {
      kidMin := kidMax;
    }
    r := IdRange(iidMin, iidMax, fidMin, fidMax, kidMin, kidMax);
  }

  ghost predicate RangeSoFar(tree: Tree, ids: Ids, iface: nat, j: nat, r: IdRange)
    requires iface < |tree| && j <= |tree[iface].superclasses|
  {
    Bounds(id => SeenID(tree, ids, iface, false, j, id), r.fidMin, r.fidMax) &&
    Bounds(id => SeenID(tree, ids, iface, true, j, id), r.kidMin, r.kidMax) &&
    Spans(iid => SeenInterface(tree, iface, j, iid), r.iidMin, r.iidMax)
  }

  lemma RangeStart(tree: Tree, ids: Ids, iface: nat, fidMin: int, fidMax: int, kidMin: int, kidMax: int)
    requires iface < |tree|
    requires Bounds(id => OwnID(tree, ids, iface, false, |tree[iface].operations|, id), fidMin, fidMax)
    requires Bounds(id => OwnID(tree, ids, iface, true, |tree[iface].operations|, id), kidMin, kidMax)
    ensures RangeSoFar(tree, ids, iface, 0, IdRange(tree[iface].iid, tree[iface].iid, fidMin, fidMax, kidMin, kidMax))
  {
    hide Bounds, OwnID, OffersID;
    BoundsSame(id => OwnID(tree, ids, iface, false, |tree[iface].operations|, id),
      id => SeenID(tree, ids, iface, false, 0, id), fidMin, fidMax);
    BoundsSame(id => OwnID(tree, ids, iface, true, |tree[iface].operations|, id),
      id => SeenID(tree, ids, iface, true, 0, id), kidMin, kidMax);
  }

  lemma RangeStep(tree: Tree, ids: Ids, iface: nat, j: nat, r: IdRange, sc: IdRange)
    requires iface < |tree| && j < |tree[iface].superclasses|
    requires RangeSoFar(tree, ids, iface, j, r) && RangeOf(tree, ids, tree[iface].superclasses[j], sc)
    ensures RangeSoFar(tree, ids, iface, j + 1,
              IdRange(Min(sc.iidMin, r.iidMin), Max(sc.iidMax, r.iidMax), Min(sc.fidMin, r.fidMin),
                Max(sc.fidMax, r.fidMax),
                      Min(sc.kidMin, r.kidMin), Max(sc.kidMax, r.kidMax)))
  {
    hide Bounds, Spans, OwnID, OffersID, OffersInterface;
    var s := tree[iface].superclasses[j];
    BoundsJoin(id => SeenID(tree, ids, iface, false, j, id), id => OffersID(tree, ids, s, false, id),
               id => SeenID(tree, ids, iface, false, j + 1, id), r.fidMin, r.fidMax, sc.fidMin, sc.fidMax);
    BoundsJoin(id => SeenID(tree, ids, iface, true, j, id), id => OffersID(tree, ids, s, true, id),
               id => SeenID(tree, ids, iface, true, j + 1, id), r.kidMin, r.kidMax, sc.kidMin, sc.kidMax);
    SpansJoin(iid => SeenInterface(tree, iface, j, iid), iid => OffersInterface(tree, s, iid),
              iid => SeenInterface(tree, iface, j + 1, iid), r.iidMin, r.iidMax, sc.iidMin, sc.iidMax);
  }

  lemma RangeEnd(tree: Tree, ids: Ids, iface: nat, r: IdRange)
    requires WellFormed(tree) && iface < |tree|
    requires RangeSoFar(tree, ids, iface, |tree[iface].superclasses|, r)
    ensures RangeOf(tree, ids, iface, r.(fidMin := if r.fidMin == ID_LIMIT then r.fidMax else r.fidMin,
                                         kidMin := if r.kidMin == ID_LIMIT then r.kidMax else r.kidMin))
  {
    hide Bounds, SeenID, OffersID, SeenInterface, OffersInterface, WellFormed;
    var m := |tree[iface].superclasses|;
    forall kernel, id
      ensures SeenID(tree, ids, iface, kernel, m, id) <==> OffersID(tree, ids, iface, kernel, id)
    {
      SeenIDIsOffered(tree, ids, iface, kernel, id);
    }
    forall iid
      ensures SeenInterface(tree, iface, m, iid) <==> OffersInterface(tree, iface, iid)
    {
      SeenInterfaceIsOffered(tree, iface, iid);
    }
    BoundsSame(id => SeenID(tree, ids, iface, false, m, id), id => OffersID(tree, ids, iface, false, id), r.fidMin,
      r.fidMax);
    BoundsSame(id => SeenID(tree, ids, iface, true, m, id), id => OffersID(tree, ids, iface, true, id), r.kidMin,
      r.kidMax);
    SpansSame(iid => SeenInterface(tree, iface, m, iid), iid => OffersInterface(tree, iface, iid), r.iidMin, r.iidMax);
  }
}
