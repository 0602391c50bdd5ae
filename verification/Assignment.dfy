/** The back end from the scope tree to the dispatch tables: claim, commit, and
    the guarantee that the tables find every operation. */
module Assignment {
  import opened Graphs
  import opened IdRanges
  import opened IdSource
  import opened Scopes
  import opened Dispatch
  import opened ServerTables
  import opened Wrappers

  lemma ConstraintRises(tree: Tree, requests: seq<Request>, constraints: seq<Constraint>, c: Constraint)
    requires WellFormed(tree) && ClaimedFor(tree, requests, Graphs.Below(|tree|))
    requires ConstrainedFor(tree, constraints, [], Graphs.Below(|tree|)) && c in constraints
    ensures Claimed(requests, c.master) && Claimed(requests, c.slave) && Height(tree, c.master) < Height(tree, c.slave)
  {
    assert Above(tree, c.slave, c.master);
    DepthAlongReach(Up(tree), |tree|, c.slave, c.master);
    assert c.master in Graphs.Below(|tree|) && c.slave in Graphs.Below(|tree|);
  }

  /** The constraints posted by the walk point from higher to lower scopes, so
      they contain no circle. */
  lemma ConstraintsAcyclic(tree: Tree, requests: seq<Request>, constraints: seq<Constraint>)
    requires WellFormed(tree) && ClaimedFor(tree, requests, Graphs.Below(|tree|))
    requires ConstrainedFor(tree, constraints, [], Graphs.Below(|tree|))
    ensures AllClaimed(requests, constraints) && Acyclic(EdgesOf(requests, constraints))
  {
    hide WellFormed, ClaimedFor, ConstrainedFor, Height, Acyclic;
    forall c | c in constraints
      ensures Claimed(requests, c.master) && Claimed(requests, c.slave)
              && Height(tree, c.master) < Height(tree, c.slave)
    {
      ConstraintRises(tree, requests, constraints, c);
    }
    var e := EdgesOf(requests, constraints);
    var rank := (r: nat) => if r < |requests| then Height(tree, requests[r].scope) else 0;
    forall x | x in e
      ensures rank(x.0) < rank(x.1)
    {
      var c :| c in constraints && x == Edge(requests, c);
    }
    RankedIsAcyclic(e, rank);
  }

  /** An interface is constrained against each of its superclasses. */
  lemma SuperclassConnected(tree: Tree, requests: seq<Request>, constraints: seq<Constraint>, iface: nat, s: nat)
    requires WellFormed(tree) && ClaimedFor(tree, requests, Graphs.Below(|tree|))
    requires ConstrainedFor(tree, constraints, [], Graphs.Below(|tree|)) && AllClaimed(requests, constraints)
    requires CommonInterfaceID(tree, iface) && s < |tree| && Reaches(SuperEdges(tree), iface, s)
    ensures Claimed(requests, s) && Claimed(requests, iface)
    ensures Connected(EdgesOf(requests, constraints), IndexIn(requests, s), IndexIn(requests, iface))
  {
    var e := EdgesOf(requests, constraints);
    assert s in Graphs.Below(|tree|) && iface in Graphs.Below(|tree|);
    var i, j := IndexIn(requests, s), IndexIn(requests, iface);
    if s == iface {
      ReachesSelf(e, i);
    } else {
      SuperclassIsInterface(tree, iface, s);
      ReachesMonotone(SuperEdges(tree), Up(tree), iface, s);
      assert Above(tree, iface, s);
      assert Constraint(s, iface) in constraints;
      assert Edge(requests, Constraint(s, iface)) in e;
      ReachesEdge(e, i, j);
    }
    ReachesConnected(e, i, j);
  }

  lemma SuperclassIsInterface(tree: Tree, iface: nat, s: nat)
    requires WellFormed(tree) && iface < |tree| && s < |tree| && s != iface && Reaches(SuperEdges(tree), iface, s)
    ensures tree[s].isInterface
  {
    var m := LastEdge(SuperEdges(tree), iface, s);
    var k :| 0 <= k < |tree[m].superclasses| && tree[m].superclasses[k] == s;
    SuperclassIsUp(tree, m, k);
  }

  ghost predicate CommitDone(tree: Tree, requests: seq<Request>, constraints: seq<Constraint>, order: seq<nat>,
                             peers: Peers)
    reads peers
  {
    ClaimedFor(tree, requests, Graphs.Below(|tree|))
    && ConstrainedFor(tree, constraints, [], Graphs.Below(|tree|)) && AllClaimed(requests, constraints)
    && IsNumbering(order, |requests|) && Topological(EdgesOf(requests, constraints), order)
    && AllNumbered(peers, requests, EdgesOf(requests, constraints), order, [])
    && forall s: nat :: s < |tree| ==>
      peers.operationCount(s) == |tree[s].operations| && peers.exceptionCount(s) == tree[s].exceptions
  }

  lemma OperationID(tree: Tree, requests: seq<Request>, constraints: seq<Constraint>, order: seq<nat>, peers: Peers,
                    c: OpName)
    requires CommitDone(tree, requests, constraints, order, peers) && IsOperation(tree, c)
    ensures Claimed(requests, c.0)
    ensures var i := IndexIn(requests, c.0);
            i in order && c in peers.functionID && c.1 < Weight(FunctionCounts(requests), i)
            && peers.functionID[c] == Start(EdgesOf(requests, constraints), FunctionCounts(requests), order, i) + c.1
  {
    assert c.0 in Graphs.Below(|tree|);
    var i := IndexIn(requests, c.0);
    assert i in order && requests[i] in requests;
    assert requests[i] == RequestOf(tree, c.0);
    assert peers.Numbered(c.0, Start(EdgesOf(requests, constraints), FunctionCounts(requests), order, i),
                          1 + Start(EdgesOf(requests, constraints), ExceptionCounts(requests), order, i));
    assert c == (c.0, c.1);
  }

  lemma OperationsDiffer(tree: Tree, requests: seq<Request>, constraints: seq<Constraint>, order: seq<nat>,
                         peers: Peers, iface: nat, a: OpName, b: OpName)
    requires WellFormed(tree) && CommitDone(tree, requests, constraints, order, peers)
    requires CommonInterfaceID(tree, iface) && Offers(tree, iface, a) && Offers(tree, iface, b) && a != b
    ensures a in peers.functionID && b in peers.functionID && peers.functionID[a] != peers.functionID[b]
  {
    hide CommitDone, Offers, CommonInterfaceID, Start, Connected, WellFormed, Position, IndexIn, EdgesOf,
         FunctionCounts, IsNumbering, AllNumbered, AllClaimed, Claimed;
    OffersOperation(tree, iface, a);
    OffersOperation(tree, iface, b);
    OperationID(tree, requests, constraints, order, peers, a);
    OperationID(tree, requests, constraints, order, peers, b);
    if a.0 != b.0 {
      RelativesConnected(tree, requests, constraints, order, peers, iface, a.0, b.0);
      var e, w, i, j := EdgesOf(requests, constraints), FunctionCounts(requests), IndexIn(requests, a.0),
        IndexIn(requests, b.0);
      if Position(order, i) < Position(order, j) {
        RangesInOrder(e, w, order, i, j);
      } else {
        RangesInOrder(e, w, order, j, i);
      }
    }
  }

  lemma OffersOperation(tree: Tree, iface: nat, c: OpName)
    requires Offers(tree, iface, c)
    ensures IsOperation(tree, c) && c.0 < |tree| && Reaches(SuperEdges(tree), iface, c.0)
  {
  }

  lemma RelativesConnected(tree: Tree, requests: seq<Request>, constraints: seq<Constraint>, order: seq<nat>,
                           peers: Peers, iface: nat, s: nat, t: nat)
    requires WellFormed(tree) && CommitDone(tree, requests, constraints, order, peers)
    requires CommonInterfaceID(tree, iface) && s < |tree| && t < |tree| && s != t
    requires Reaches(SuperEdges(tree), iface, s) && Reaches(SuperEdges(tree), iface, t)
    ensures AllClaimed(requests, constraints) && Claimed(requests, s) && Claimed(requests, t)
    ensures var e, i, j := EdgesOf(requests, constraints), IndexIn(requests, s), IndexIn(requests, t);
            Connected(e, i, j) && Connected(e, j, i) && i in order && j in order
            && Position(order, i) != Position(order, j)
  {
    hide CommonInterfaceID, WellFormed;
    SuperclassConnected(tree, requests, constraints, iface, s);
    SuperclassConnected(tree, requests, constraints, iface, t);
    var e, i, j, k := EdgesOf(requests, constraints), IndexIn(requests, s), IndexIn(requests, t),
      IndexIn(requests, iface);
    ConnectedSymmetric(e, j, k);
    ReachesTransitive(e + Reversed(e), i, k, j);
    ConnectedSymmetric(e, i, j);
  }

  // ---------------------------------------------------------------- exceptions, and scopes of their own

  lemma ExceptionID(tree: Tree, requests: seq<Request>, constraints: seq<Constraint>, order: seq<nat>, peers: Peers,
                    c: OpName)
    requires CommitDone(tree, requests, constraints, order, peers) && c.0 < |tree| && c.1 < tree[c.0].exceptions
    ensures Claimed(requests, c.0)
    ensures var i := IndexIn(requests, c.0);
            i in order && c in peers.exceptionID && c.1 < Weight(ExceptionCounts(requests), i)
            && peers.exceptionID[c]
               == 1 + Start(EdgesOf(requests, constraints), ExceptionCounts(requests), order, i) + c.1
  {
    assert c.0 in Graphs.Below(|tree|);
    var i := IndexIn(requests, c.0);
    assert i in order && requests[i] in requests;
    assert requests[i] == RequestOf(tree, c.0);
    assert peers.Numbered(c.0, Start(EdgesOf(requests, constraints), FunctionCounts(requests), order, i),
                          1 + Start(EdgesOf(requests, constraints), ExceptionCounts(requests), order, i));
    assert c == (c.0, c.1);
  }

  lemma ExceptionsDiffer(tree: Tree, requests: seq<Request>, constraints: seq<Constraint>, order: seq<nat>,
                         peers: Peers, iface: nat, a: OpName, b: OpName)
    requires WellFormed(tree) && CommitDone(tree, requests, constraints, order, peers)
    requires CommonInterfaceID(tree, iface) && Raises(tree, iface, a) && Raises(tree, iface, b) && a != b
    ensures a in peers.exceptionID && b in peers.exceptionID && peers.exceptionID[a] != peers.exceptionID[b]
  {
    hide CommitDone, CommonInterfaceID, Start, Connected, WellFormed, Position, IndexIn, EdgesOf, ExceptionCounts,
         IsNumbering, AllNumbered, AllClaimed, Claimed, Raises, Weight, Reaches;
    RaisesException(tree, iface, a);
    RaisesException(tree, iface, b);
    ExceptionID(tree, requests, constraints, order, peers, a);
    ExceptionID(tree, requests, constraints, order, peers, b);
    if a.0 != b.0 {
      RelativesConnected(tree, requests, constraints, order, peers, iface, a.0, b.0);
      var e, w, i, j := EdgesOf(requests, constraints), ExceptionCounts(requests), IndexIn(requests, a.0),
        IndexIn(requests, b.0);
      if Position(order, i) < Position(order, j) {
        RangesInOrder(e, w, order, i, j);
      } else {
        RangesInOrder(e, w, order, j, i);
      }
    }
  }

  lemma RaisesException(tree: Tree, iface: nat, c: OpName)
    requires Raises(tree, iface, c)
    ensures c.0 < |tree| && c.1 < tree[c.0].exceptions && Reaches(SuperEdges(tree), iface, c.0)
  {
  }

  /** c is an own or inherited exception of the interface. */
  ghost predicate Raises(tree: Tree, iface: nat, c: OpName) {
    c.0 < |tree| && c.1 < tree[c.0].exceptions && Reaches(SuperEdges(tree), iface, c.0)
  }

  ghost predicate NoExceptionClash(tree: Tree, ids: Ids, iface: nat) {
    (forall c: OpName :: Raises(tree, iface, c) ==> c in ids && ids[c] >= 1) &&
    (forall a: OpName, b: OpName :: Raises(tree, iface, a) && Raises(tree, iface, b) && a != b ==> ids[a] != ids[b])
  }

  lemma NoExceptionClashes(tree: Tree, requests: seq<Request>, constraints: seq<Constraint>, order: seq<nat>,
                           peers: Peers)
    requires WellFormed(tree) && CommitDone(tree, requests, constraints, order, peers)
    ensures forall iface: nat :: CommonInterfaceID(tree, iface) ==> NoExceptionClash(tree, peers.exceptionID, iface)
  {
    hide CommitDone, WellFormed, CommonInterfaceID, Start;
    forall iface: nat | CommonInterfaceID(tree, iface)
      ensures NoExceptionClash(tree, peers.exceptionID, iface)
    {
      forall a: OpName | Raises(tree, iface, a)
        ensures a in peers.exceptionID && peers.exceptionID[a] >= 1
      {
        ExceptionID(tree, requests, constraints, order, peers, a);
      }
      forall a: OpName, b: OpName | Raises(tree, iface, a) && Raises(tree, iface, b) && a != b
        ensures peers.exceptionID[a] != peers.exceptionID[b]
      {
        ExceptionsDiffer(tree, requests, constraints, order, peers, iface, a, b);
      }
    }
  }

  /** No other scope is an interface with the same interface ID. */
  ghost predicate Alone(tree: Tree, s: nat) {
    s < |tree| &&
    forall t: nat :: t < |tree| && t != s ==>
        !(tree[s].isInterface && tree[t].isInterface && tree[s].iid == tree[t].iid)
  }

  /** Operations count from 0 there, and exceptions from 1. */
  ghost predicate CountsFromStart(tree: Tree, ids: Ids, exceptions: Ids, s: nat) {
    s < |tree| &&
    (forall i: nat :: i < |tree[s].operations| ==> (s, i) in ids && ids[(s, i)] == i) &&
    (forall i: nat :: i < tree[s].exceptions ==> (s, i) in exceptions && exceptions[(s, i)] == 1 + i)
  }

  lemma AloneStarts(tree: Tree, requests: seq<Request>, constraints: seq<Constraint>, order: seq<nat>, peers: Peers,
                    s: nat)
    requires CommitDone(tree, requests, constraints, order, peers) && s < |tree| && Alone(tree, s)
    ensures CountsFromStart(tree, peers.functionID, peers.exceptionID, s)
  {
    hide CommitDone, Start, EdgesOf, FunctionCounts, ExceptionCounts, Alone;
    forall i: nat | i < |tree[s].operations|
      ensures (s, i) in peers.functionID && peers.functionID[(s, i)] == i
    {
      OperationID(tree, requests, constraints, order, peers, (s, i));
      AloneStart(tree, requests, constraints, order, peers, s, FunctionCounts(requests));
    }
    forall i: nat | i < tree[s].exceptions
      ensures (s, i) in peers.exceptionID && peers.exceptionID[(s, i)] == 1 + i
    {
      ExceptionID(tree, requests, constraints, order, peers, (s, i));
      AloneStart(tree, requests, constraints, order, peers, s, ExceptionCounts(requests));
    }
  }

  lemma AloneStart(tree: Tree, requests: seq<Request>, constraints: seq<Constraint>, order: seq<nat>, peers: Peers,
                   s: nat, w: seq<nat>)
    requires CommitDone(tree, requests, constraints, order, peers) && Alone(tree, s)
    requires Claimed(requests, s) && IndexIn(requests, s) in order
    ensures AllClaimed(requests, constraints)
    ensures Start(EdgesOf(requests, constraints), w, order, IndexIn(requests, s)) == 0
  {
    var e, i := EdgesOf(requests, constraints), IndexIn(requests, s);
    forall y: nat | y != i
      ensures !Connected(e, y, i)
    {
      if Connected(e, y, i) {
        var z := LastEdge(e + Reversed(e), y, i);
        AloneNoEdge(tree, requests, constraints, s, z);
      }
    }
    var p := Position(order, i);
    assert i !in order[..p];
    NothingStacked(e, w, order[..p], i);
  }

  lemma AloneNoEdge(tree: Tree, requests: seq<Request>, constraints: seq<Constraint>, s: nat, z: nat)
    requires AllClaimed(requests, constraints) && Claimed(requests, s) && Alone(tree, s)
    requires ConstrainedFor(tree, constraints, [], Graphs.Below(|tree|))
    ensures var e, i := EdgesOf(requests, constraints), IndexIn(requests, s); (z, i) !in e && (i, z) !in e
  {
    var e, i := EdgesOf(requests, constraints), IndexIn(requests, s);
    forall c | c in constraints
      ensures Edge(requests, c) != (z, i) && Edge(requests, c) != (i, z)
    {
      assert Above(tree, c.slave, c.master);
      assert Comparable(tree, c.master, c.slave) && c.master != c.slave;
      assert requests[IndexIn(requests, c.master)].scope == c.master;
      assert requests[IndexIn(requests, c.slave)].scope == c.slave;
    }
  }

  lemma {:induction false} NothingStacked(e: Edges, w: seq<nat>, order: seq<nat>, x: nat)
    requires forall y :: y in order ==> !Connected(e, y, x)
    ensures Stack(e, w, order, x) == 0
    decreases |order|
  {
    hide Connected;
    if order != [] {
      assert order[|order| - 1] in order;
      NothingStacked(e, w, order[..|order| - 1], x);
    }
  }

  /** t is the parent or a direct superclass of s, and both are interfaces with one ID. */
  ghost predicate DirectlyAbove(tree: Tree, s: nat, t: nat) {
    s < |tree| && t < |tree| && s != t && (tree[s].parent == Some(t) || t in tree[s].superclasses)
    && tree[s].isInterface && tree[t].isInterface && tree[s].iid == tree[t].iid
  }

  /** What is inherited has the smaller numbers. */
  ghost predicate AboveFirst(tree: Tree, ids: Ids, exceptions: Ids, s: nat, t: nat) {
    s < |tree| && t < |tree| &&
    AllLower(ids, t, |tree[t].operations|, s, |tree[s].operations|) &&
    AllLower(exceptions, t, tree[t].exceptions, s, tree[s].exceptions)
  }

  ghost predicate AllLower(ids: Ids, t: nat, m: nat, s: nat, n: nat) {
    forall i: nat, j: nat :: i < m && j < n ==> Lower(ids, (t, i), (s, j))
  }

  predicate Lower(ids: Ids, a: OpName, b: OpName) {
    a in ids && b in ids && ids[a] < ids[b]
  }

  lemma AboveIsMaster(tree: Tree, requests: seq<Request>, constraints: seq<Constraint>, order: seq<nat>, peers: Peers,
                      s: nat, t: nat, w: seq<nat>)
    requires CommitDone(tree, requests, constraints, order, peers) && DirectlyAbove(tree, s, t)
    ensures AllClaimed(requests, constraints) && Claimed(requests, s) && Claimed(requests, t)
    ensures var e, i, j := EdgesOf(requests, constraints), IndexIn(requests, t), IndexIn(requests, s);
            i in order && j in order && Start(e, w, order, i) + Weight(w, i) <= Start(e, w, order, j)
  {
    assert s in Graphs.Below(|tree|) && t in Graphs.Below(|tree|);
    var e, i, j := EdgesOf(requests, constraints), IndexIn(requests, t), IndexIn(requests, s);
    assert (s, t) in Up(tree);
    ReachesEdge(Up(tree), s, t);
    assert Above(tree, s, t);
    assert Constraint(t, s) in constraints;
    assert Edge(requests, Constraint(t, s)) in e;
    ReachesEdge(e, i, j);
    MasterBelowSlave(e, w, order, |requests|, i, j);
  }

  lemma InheritedFirst(tree: Tree, requests: seq<Request>, constraints: seq<Constraint>, order: seq<nat>, peers: Peers,
                       s: nat, t: nat)
    requires CommitDone(tree, requests, constraints, order, peers) && s < |tree| && t < |tree|
             && DirectlyAbove(tree, s, t)
    ensures AboveFirst(tree, peers.functionID, peers.exceptionID, s, t)
  {
    hide CommitDone, Start, EdgesOf, FunctionCounts, ExceptionCounts, DirectlyAbove;
    forall i: nat, j: nat | i < |tree[t].operations| && j < |tree[s].operations|
      ensures Lower(peers.functionID, (t, i), (s, j))
    {
      OperationID(tree, requests, constraints, order, peers, (t, i));
      OperationID(tree, requests, constraints, order, peers, (s, j));
      AboveIsMaster(tree, requests, constraints, order, peers, s, t, FunctionCounts(requests));
    }
    forall i: nat, j: nat | i < tree[t].exceptions && j < tree[s].exceptions
      ensures Lower(peers.exceptionID, (t, i), (s, j))
    {
      ExceptionID(tree, requests, constraints, order, peers, (t, i));
      ExceptionID(tree, requests, constraints, order, peers, (s, j));
      AboveIsMaster(tree, requests, constraints, order, peers, s, t, ExceptionCounts(requests));
    }
  }

  /** Runs the ID assignment over the whole tree. In every interface whose
      superclasses share its interface ID, no two operations get the same ID, and no
      two exceptions, and what is inherited has the smaller IDs. Scopes that share their
      interface ID with no other are numbered on their own. */
  method AssignAll(tree: Tree, root: nat) returns (ids: Ids, exceptions: Ids)
    requires WellFormed(tree) && root < |tree| && forall s: nat :: s < |tree| ==> Inside(tree, s, root)
    ensures AllAssigned(tree, ids)
    ensures forall iface: nat :: CommonInterfaceID(tree, iface) ==>
              NoClash(tree, ids, iface) && NoExceptionClash(tree, exceptions, iface)
    ensures forall s: nat :: s < |tree| && Alone(tree, s) ==> CountsFromStart(tree, ids, exceptions, s)
    ensures forall s: nat, t: nat :: s < |tree| && t < |tree| && DirectlyAbove(tree, s, t) ==>
              AboveFirst(tree, ids, exceptions, s, t)
  {
    hide CommonInterfaceID, Offers, ClaimedFor, ConstrainedFor, Acyclic, Alone, CountsFromStart, Raises,
         DirectlyAbove, AboveFirst, Topological;
    var source := new IDSource();
    var peers := new Peers((s: nat) => if s < |tree| then |tree[s].operations| else 0,
                           (s: nat) => if s < |tree| then tree[s].exceptions else 0);
    assert Subtree(tree, root) == Graphs.Below(|tree|);
    ghost var added := ClaimIDs(tree, root, source);
    assert source.requests == added;
    ConstraintsAcyclic(tree, source.requests, source.constraints);
    assert ScopesDistinct(source.requests) by { ClaimsDistinct(tree, source.requests, Graphs.Below(|tree|)); }
    ghost var order := source.Commit(peers);
    ids, exceptions := peers.functionID, peers.exceptionID;
    assert CommitDone(tree, source.requests, source.constraints, order, peers);
    NoClashes(tree, source.requests, source.constraints, order, peers);
    NoExceptionClashes(tree, source.requests, source.constraints, order, peers);
    forall s: nat | s < |tree| && Alone(tree, s)
      ensures CountsFromStart(tree, ids, exceptions, s)
    {
      AloneStarts(tree, source.requests, source.constraints, order, peers, s);
    }
    forall s: nat, t: nat | s < |tree| && t < |tree| && DirectlyAbove(tree, s, t)
      ensures AboveFirst(tree, ids, exceptions, s, t)
    {
      InheritedFirst(tree, source.requests, source.constraints, order, peers, s, t);
    }
  }

  lemma ClaimsDistinct(tree: Tree, requests: seq<Request>, members: set<nat>)
    requires ClaimedFor(tree, requests, members)
    ensures ScopesDistinct(requests)
  {
  }

  lemma NoClashes(tree: Tree, requests: seq<Request>, constraints: seq<Constraint>, order: seq<nat>, peers: Peers)
    requires WellFormed(tree) && CommitDone(tree, requests, constraints, order, peers)
    ensures AllAssigned(tree, peers.functionID)
    ensures forall iface: nat :: CommonInterfaceID(tree, iface) ==> NoClash(tree, peers.functionID, iface)
  {
    hide CommitDone, WellFormed, CommonInterfaceID, Offers, Start;
    forall c: OpName | IsOperation(tree, c)
      ensures c in peers.functionID && peers.functionID[c] >= 0
    {
      OperationID(tree, requests, constraints, order, peers, c);
    }
    forall iface: nat | CommonInterfaceID(tree, iface)
      ensures NoClash(tree, peers.functionID, iface)
    {
      forall a: OpName | Offers(tree, iface, a)
        ensures a in peers.functionID && peers.functionID[a] >= 0
      {
        OffersOperation(tree, iface, a);
      }
      forall a: OpName, b: OpName | Offers(tree, iface, a) && Offers(tree, iface, b) && a != b
        ensures peers.functionID[a] != peers.functionID[b]
      {
        OperationsDiffer(tree, requests, constraints, order, peers, iface, a, b);
      }
    }
  }

  /** From the tree to the tables: for an interface with a common interface ID and automatic
      function IDs the one table dispatches every own or inherited operation that users call,
      and every other slot discards. Kernel messages have a table of their own. */
  method GenerateTables(tree: Tree, root: nat, iface: nat) returns (ids: Ids, d: Definitions)
    requires WellFormed(tree) && root < |tree| && forall s: nat :: s < |tree| ==> Inside(tree, s, root)
    requires iface < |tree|
    ensures CommonInterfaceID(tree, iface) && Automatic(tree, iface) ==>
              tree[iface].iid in d.tables && Dispatches(tree, ids, iface, d.tables[tree[iface].iid])
              && forall fid :: AtMostOne(tree, ids, iface, fid, tree[iface].iid)
    ensures AllInPlace(tree, ids, iface, d)
    ensures HasKernel(tree, iface) ==> d.kernel.Some? && KernelDispatches(tree, ids, iface, d.kernel.value)
  {
    hide WellFormed, AllAssigned, CommonInterfaceID, Automatic, Offers, TableFor, OffersID, Dispatches, RangeOf,
         HasKernel, KernelDispatches, KernelTable, AllInPlace;
    var exceptions;
    ids, exceptions := AssignAll(tree, root);
    var r, size;
    ghost var k;
    d, r, size, k := BuildServerDefinitions(tree, ids, iface);
    if CommonInterfaceID(tree, iface) && Automatic(tree, iface) {
      OneInterfaceID(tree, ids, iface, r);
      TableDispatches(tree, ids, iface, d.tables[tree[iface].iid], k);
    }
    if d.kernel.Some? {
      KernelTableDispatches(tree, ids, iface, d.kernel.value);
    }
  }

  lemma OneInterfaceID(tree: Tree, ids: Ids, iface: nat, r: IdRange)
    requires CommonInterfaceID(tree, iface) && RangeOf(tree, ids, iface, r)
    ensures iface < |tree| && r.iidMin == r.iidMax == tree[iface].iid
  {
    var f := iid => OffersInterface(tree, iface, iid);
    assert f(r.iidMin) && f(r.iidMax);
  }
}
