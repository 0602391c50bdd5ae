/** Assignment of function and exception IDs to scopes: the requests and
    constraints collected by the ID source, and the commit step that closes the
    constraint relation and numbers the scopes in topological order. */
module IdSource {
  import opened Graphs
  import opened IdRanges
  import opened Wrappers

  datatype Relation = Unrelated | Master | Slave | Cross

  datatype Request = Request(scope: nat, functionCount: nat, exceptionCount: nat)

  datatype Constraint = Constraint(master: nat, slave: nat)

  /** The IDs stored in the peers of operations and exceptions. An operation is
      named by its scope and its position in that scope. */
  class Peers {
    const operationCount: nat -> nat
    const exceptionCount: nat -> nat
    var functionID: map<(nat, nat), int>
    var exceptionID: map<(nat, nat), int>
    ghost var calls: seq<nat>

    constructor (operationCount: nat -> nat, exceptionCount: nat -> nat)
      ensures this.operationCount == operationCount && this.exceptionCount == exceptionCount
      ensures functionID == map[] && exceptionID == map[] && calls == []
    {
      this.operationCount := operationCount;
      this.exceptionCount := exceptionCount;
      functionID, exceptionID, calls := map[], map[], [];
    }

    /** The scope's operations are numbered upwards from f, its exceptions from x. */
    ghost predicate Numbered(scope: nat, f: int, x: int)
      reads this
    {
      (forall k: nat :: k < operationCount(scope) ==> (scope, k) in functionID && functionID[(scope, k)] == f + k) &&
      (forall k: nat :: k < exceptionCount(scope) ==> (scope, k) in exceptionID && exceptionID[(scope, k)] == x + k)
    }

    method AssignIDs(scope: nat, operationStart: int, exceptionStart: int)
      modifies this
      ensures Numbered(scope, operationStart, exceptionStart)
      ensures forall s: nat, f: int, x: int :: s != scope && old(Numbered(s, f, x)) ==> Numbered(s, f, x)
      ensures calls == old(calls) + [scope]
    {
      functionID := NumberUpwards(functionID, scope, operationCount(scope), operationStart);
      exceptionID := NumberUpwards(exceptionID, scope, exceptionCount(scope), exceptionStart);
      calls := calls + [scope];
    }

    static method NumberUpwards(ids: map<(nat, nat), int>, scope: nat, count: nat, start: int)
        returns (r: map<(nat, nat), int>)
      ensures forall k: nat :: k < count ==> (scope, k) in r && r[(scope, k)] == start + k
      ensures forall q: (nat, nat) :: q.0 != scope && q in ids ==> q in r && r[q] == ids[q]
    {
      r := ids;
      var next := start;
      for k := 0 to count
        invariant next == start + k
        invariant forall j: nat :: j < k ==> (scope, j) in r && r[(scope, j)] == start + j
        invariant forall q: (nat, nat) :: q.0 != scope && q in ids ==> q in r && r[q] == ids[q]
      {
        r := r[(scope, k) := next];
        next := next + 1;
      }
    }
  }

  // ---------------------------------------------------------------- collected requests

  ghost predicate Claimed(requests: seq<Request>, scope: nat) {
    exists r :: 0 <= r < |requests| && requests[r].scope == scope
  }

  ghost predicate ScopesDistinct(requests: seq<Request>) {
    forall r, s :: 0 <= r < s < |requests| ==> requests[r].scope != requests[s].scope
  }

  ghost function IndexIn(requests: seq<Request>, scope: nat): (r: nat)
    requires Claimed(requests, scope)
    ensures r < |requests| && requests[r].scope == scope
    ensures forall s :: 0 <= s < r ==> requests[s].scope != scope
  {
    if requests[0].scope == scope then 0
    else
      assert Claimed(requests[1..], scope) by {
        var r :| 0 <= r < |requests| && requests[r].scope == scope;
        assert requests[1..][r - 1].scope == scope;
      }
      1 + IndexIn(requests[1..], scope)
  }

  ghost predicate AllClaimed(requests: seq<Request>, constraints: seq<Constraint>) {
    forall c :: c in constraints ==> Claimed(requests, c.master) && Claimed(requests, c.slave)
  }

  ghost function Edge(requests: seq<Request>, c: Constraint): (nat, nat)
    requires Claimed(requests, c.master) && Claimed(requests, c.slave)
  {
    (IndexIn(requests, c.master), IndexIn(requests, c.slave))
  }

  /** The constraints as edges between positions in the request list. */
  ghost function EdgesOf(requests: seq<Request>, constraints: seq<Constraint>): (e: Edges)
    requires AllClaimed(requests, constraints)
    ensures Within(e, |requests|)
  {
    set c | c in constraints :: Edge(requests, c)
  }

  ghost function FunctionCounts(requests: seq<Request>): seq<nat> {
    seq(|requests|, r requires 0 <= r < |requests| => requests[r].functionCount)
  }

  ghost function ExceptionCounts(requests: seq<Request>): seq<nat> {
    seq(|requests|, r requires 0 <= r < |requests| => requests[r].exceptionCount)
  }

  // ---------------------------------------------------------------- the relation matrix

  /** What the matrix holds once both closures are complete. */
  ghost function Classify(e: Edges, i: nat, j: nat): Relation {
    if Reaches(e, i, j) then Master
    else if Reaches(e, j, i) then Slave
    else if Connected(e, i, j) then Cross
    else Unrelated
  }

  ghost predicate Square(rel: array2<Relation>, n: nat) {
    rel.Length0 == n && rel.Length1 == n
  }

  ghost predicate Classified(rel: array2<Relation>, n: nat, e: Edges)
    reads rel
  {
    Square(rel, n) && forall i: nat, j: nat :: i < n && j < n ==> rel[i, j] == Classify(e, i, j)
  }

  /** Invariant of the first closure: master and slave entries mirror each other
      and every master entry is justified by a path. */
  ghost predicate Directed(rel: array2<Relation>, n: nat, e: Edges)
    reads rel
  {
    Square(rel, n) &&
    (forall i: nat :: i < n ==> rel[i, i] == Master) &&
    (forall i: nat, j: nat :: i < n && j < n && i != j ==> (rel[i, j] == Master <==> rel[j, i] == Slave)) &&
    (forall i: nat, j: nat :: i < n && j < n ==> rel[i, j] != Cross) &&
    (forall i: nat, j: nat :: i < n && j < n && rel[i, j] == Master ==> Reaches(e, i, j))
  }

  ghost predicate HasEdges(rel: array2<Relation>, n: nat, e: Edges)
    requires Square(rel, n)
    reads rel
  {
    forall i: nat, j: nat :: i < n && j < n && (i, j) in e ==> rel[i, j] == Master
  }

  /** Invariant of the second closure: the directed part is complete and every
      other nonzero entry is symmetric and stays inside a component. */
  ghost predicate Undirected(rel: array2<Relation>, n: nat, e: Edges)
    reads rel
  {
    Square(rel, n) &&
    (forall i: nat, j: nat :: i < n && j < n ==> (rel[i, j] == Master <==> Reaches(e, i, j))) &&
    (forall i: nat, j: nat :: i < n && j < n ==> (rel[i, j] == Slave <==> i != j && Reaches(e, j, i))) &&
    (forall i: nat, j: nat :: i < n && j < n && rel[i, j] == Cross ==> rel[j, i] == Cross && Connected(e, i, j))
  }

  ghost function Blanks(rel: array2<Relation>, n: nat): set<(nat, nat)>
    requires Square(rel, n)
    reads rel
  {
    set i: nat, j: nat | i < n && j < n && rel[i, j] == Unrelated :: (i, j)
  }

  /** No pair of master entries through (i, j) is left open. */
  ghost predicate MastersClosedAt(rel: array2<Relation>, n: nat, i: nat, j: nat)
    requires Square(rel, n) && i < n && j < n
    reads rel
  {
    forall k: nat :: k < n && rel[i, j] == Master && rel[j, k] == Master ==> rel[i, k] != Unrelated
  }

  ghost predicate MastersClosed(rel: array2<Relation>, n: nat)
    requires Square(rel, n)
    reads rel
  {
    forall i: nat, j: nat :: i < n && j < n ==> MastersClosedAt(rel, n, i, j)
  }

  ghost predicate NonzeroClosedAt(rel: array2<Relation>, n: nat, i: nat, j: nat)
    requires Square(rel, n) && i < n && j < n
    reads rel
  {
    forall k: nat :: k < n && rel[i, j] != Unrelated && rel[j, k] != Unrelated ==> rel[i, k] != Unrelated
  }

  ghost predicate NonzeroClosed(rel: array2<Relation>, n: nat)
    requires Square(rel, n)
    reads rel
  {
    forall i: nat, j: nat :: i < n && j < n ==> NonzeroClosedAt(rel, n, i, j)
  }

  method ClearRelation(rel: array2<Relation>, n: nat)
    requires Square(rel, n)
    modifies rel
    ensures forall a: nat, b: nat :: a < n && b < n ==> rel[a, b] == if a == b then Master else Unrelated
  {
    for i := 0 to n
      invariant forall a: nat, b: nat :: a < i && b < n ==> rel[a, b] == if a == b then Master else Unrelated
    {
      for j := 0 to n
        invariant forall a: nat, b: nat :: a < i && b < n ==> rel[a, b] == if a == b then Master else Unrelated
        invariant forall b: nat :: b < j ==> rel[i, b] == if i == b then Master else Unrelated
      {
        rel[i, j] := if i == j then Master else Unrelated;
      }
    }
  }

  method EstablishConstraints(rel: array2<Relation>, requests: seq<Request>, constraints: seq<Constraint>)
    requires AllClaimed(requests, constraints) && Acyclic(EdgesOf(requests, constraints))
    requires Square(rel, |requests|)
    modifies rel
    ensures Directed(rel, |requests|, EdgesOf(requests, constraints))
    ensures HasEdges(rel, |requests|, EdgesOf(requests, constraints))
  {
    hide Acyclic, Directed, HasEdges;
    var n := |requests|;
    ghost var e := EdgesOf(requests, constraints);
    ClearRelation(rel, n);
    ClearedIsDirected(rel, n, e);
    ghost var entered: Edges := {};
    for c := 0 to |constraints|
      invariant Directed(rel, n, e)
      invariant entered == set d | d in constraints[..c] :: Edge(requests, d)
      invariant HasEdges(rel, n, entered)
    {
      assert constraints[c] in constraints;
      var i := IndexOf(requests, constraints[c].master);
      var j := IndexOf(requests, constraints[c].slave);
      assert i != UNKNOWN && j != UNKNOWN;
      EdgeIsStrict(requests, constraints, constraints[c]);
      assert constraints[..c + 1] == constraints[..c] + [constraints[c]];
      Constrain(rel, n, e, entered, i, j);
      entered := entered + {(i, j)};
    }
    assert constraints[..|constraints|] == constraints;
  }

  lemma ClearedIsDirected(rel: array2<Relation>, n: nat, e: Edges)
    requires Square(rel, n)
    requires forall a: nat, b: nat :: a < n && b < n ==> rel[a, b] == if a == b then Master else Unrelated
    ensures Directed(rel, n, e) && HasEdges(rel, n, {})
  {
    forall i: nat | i < n
      ensures Reaches(e, i, i)
    {
      ReachesSelf(e, i);
    }
  }

  method Constrain(rel: array2<Relation>, n: nat, ghost e: Edges, ghost entered: Edges, i: nat, j: nat)
    requires Directed(rel, n, e) && HasEdges(rel, n, entered) && entered <= e
    requires i < n && j < n && i != j && Reaches(e, i, j) && !Reaches(e, j, i)
    modifies rel
    ensures Directed(rel, n, e) && HasEdges(rel, n, entered + {(i, j)})
  {
    if (j, i) in entered {
      ReachesEdge(e, j, i);
    }
    rel[i, j] := Master;
    rel[j, i] := Slave;
  }

  lemma EdgeIsStrict(requests: seq<Request>, constraints: seq<Constraint>, c: Constraint)
    requires AllClaimed(requests, constraints) && c in constraints
    requires Acyclic(EdgesOf(requests, constraints))
    ensures var x := Edge(requests, c);
            x in EdgesOf(requests, constraints) && x.0 != x.1
            && Reaches(EdgesOf(requests, constraints), x.0, x.1)
            && !Reaches(EdgesOf(requests, constraints), x.1, x.0)
  {
    var x := Edge(requests, c);
    var e := EdgesOf(requests, constraints);
    ReachesEdge(e, x.0, x.1);
    assert IsPath(e, [x.0, x.1]);
    if Reaches(e, x.1, x.0) {
      AcyclicAntisymmetric(e, x.0, x.1);
    }
  }

  /** Position of the scope's request, or UNKNOWN. */
  method IndexOf(requests: seq<Request>, scope: nat) returns (result: int)
    ensures Claimed(requests, scope) ==> result == IndexIn(requests, scope)
    ensures !Claimed(requests, scope) ==> result == UNKNOWN
  {
    result := 0;
    while result < |requests|
      invariant 0 <= result <= |requests|
      invariant forall r :: 0 <= r < result ==> requests[r].scope != scope
    {
      if requests[result].scope == scope {
        return;
      }
      result := result + 1;
    }
    result := UNKNOWN;
  }

  /** Enters i as a master of k, and k as a slave of i. */
  method Relate(rel: array2<Relation>, n: nat, ghost e: Edges, i: nat, k: nat)
    requires Directed(rel, n, e) && HasEdges(rel, n, e) && i < n && k < n
    requires rel[i, k] == Unrelated && Reaches(e, i, k)
    modifies rel
    ensures Directed(rel, n, e) && HasEdges(rel, n, e)
    ensures Blanks(rel, n) < old(Blanks(rel, n))
  {
    ghost var now := Blanks(rel, n);
    assert (i, k) in now;
    rel[i, k] := Master;
    rel[k, i] := Slave;
    assert (i, k) !in Blanks(rel, n);
    assert Blanks(rel, n) <= now;
  }

  method CrossRelate(rel: array2<Relation>, n: nat, ghost e: Edges, i: nat, k: nat)
    requires Undirected(rel, n, e) && i < n && k < n
    requires rel[i, k] == Unrelated && Connected(e, i, k)
    modifies rel
    ensures Undirected(rel, n, e)
    ensures Blanks(rel, n) < old(Blanks(rel, n))
  {
    ConnectedSymmetric(e, i, k);
    ReachesSelf(e, i);
    ghost var now := Blanks(rel, n);
    assert (i, k) in now;
    rel[i, k] := Cross;
    rel[k, i] := Cross;
    assert (i, k) !in Blanks(rel, n);
    assert Blanks(rel, n) <= now;
  }

  /** Innermost loop of the first fixpoint: extends the master entries through (i, j). */
  method CloseMastersThrough(rel: array2<Relation>, n: nat, ghost e: Edges, i: nat, j: nat) returns (stable: bool)
    requires Directed(rel, n, e) && HasEdges(rel, n, e) && i < n && j < n
    modifies rel
    ensures Directed(rel, n, e) && HasEdges(rel, n, e)
    ensures if stable then unchanged(rel) && MastersClosedAt(rel, n, i, j) else Blanks(rel, n) < old(Blanks(rel, n))
  {
    stable := true;
    for k := 0 to n
      invariant Directed(rel, n, e) && HasEdges(rel, n, e)
      invariant stable ==> unchanged(rel)
      invariant stable ==> forall c: nat :: c < k && rel[i, j] == Master && rel[j, c] == Master ==>
                  rel[i, c] != Unrelated
      invariant !stable ==> Blanks(rel, n) < old(Blanks(rel, n))
    {
      if rel[i, j] == Master && rel[j, k] == Master && rel[i, k] == Unrelated {
        stable := false;
        ReachesTransitive(e, i, j, k);
        Relate(rel, n, e, i, k);
      }
    }
  }

  method CloseMastersRow(rel: array2<Relation>, n: nat, ghost e: Edges, i: nat) returns (stable: bool)
    requires Directed(rel, n, e) && HasEdges(rel, n, e) && i < n
    modifies rel
    ensures Directed(rel, n, e) && HasEdges(rel, n, e)
    ensures if stable then unchanged(rel) && forall j: nat :: j < n ==> MastersClosedAt(rel, n, i, j)
            else Blanks(rel, n) < old(Blanks(rel, n))
  {
    stable := true;
    for j := 0 to n
      invariant Directed(rel, n, e) && HasEdges(rel, n, e)
      invariant if stable then unchanged(rel) && forall b: nat :: b < j ==> MastersClosedAt(rel, n, i, b)
                else Blanks(rel, n) < old(Blanks(rel, n))
    {
      var still := CloseMastersThrough(rel, n, e, i, j);
      stable := stable && still;
    }
  }

  method CloseMastersPass(rel: array2<Relation>, n: nat, ghost e: Edges) returns (stable: bool)
    requires Directed(rel, n, e) && HasEdges(rel, n, e)
    modifies rel
    ensures Directed(rel, n, e) && HasEdges(rel, n, e)
    ensures if stable then unchanged(rel) && MastersClosed(rel, n) else Blanks(rel, n) < old(Blanks(rel, n))
  {
    stable := true;
    for i := 0 to n
      invariant Directed(rel, n, e) && HasEdges(rel, n, e)
      invariant if stable then unchanged(rel) && forall a: nat, b: nat :: a < i && b < n ==>
                  MastersClosedAt(rel, n, a, b)
                else Blanks(rel, n) < old(Blanks(rel, n))
    {
      var still := CloseMastersRow(rel, n, e, i);
      stable := stable && still;
    }
  }

  /** First fixpoint: afterwards a master entry stands exactly where a path does. */
  method CloseMasters(rel: array2<Relation>, n: nat, ghost e: Edges)
    requires Acyclic(e) && Within(e, n)
    requires Directed(rel, n, e) && HasEdges(rel, n, e)
    modifies rel
    ensures Directed(rel, n, e)
    ensures forall i: nat, j: nat :: i < n && j < n ==> (rel[i, j] == Master <==> Reaches(e, i, j))
  {
    var stable := false;
    while !stable
      invariant Directed(rel, n, e) && HasEdges(rel, n, e)
      invariant stable ==> MastersClosed(rel, n)
      decreases Blanks(rel, n), !stable
    {
      stable := CloseMastersPass(rel, n, e);
    }
    forall i: nat, j: nat | i < n && j < n && Reaches(e, i, j)
      ensures rel[i, j] == Master
    {
      var p :| Joins(e, p, i, j);
      MasterAlongPath(rel, n, e, p, i, j);
    }
  }

  lemma {:induction false} MasterAlongPath(rel: array2<Relation>, n: nat, e: Edges, p: seq<nat>, i: nat, j: nat)
    requires Acyclic(e) && Within(e, n)
    requires Directed(rel, n, e) && HasEdges(rel, n, e) && MastersClosed(rel, n)
    requires Joins(e, p, i, j) && i < n && j < n
    ensures rel[i, j] == Master
    decreases |p|
  {
    if |p| > 1 {
      assert (p[0], p[1]) in e;
      MasterAlongPath(rel, n, e, p[1..], p[1], j);
      assert MastersClosedAt(rel, n, i, p[1]);
      assert Joins(e, p, i, j);
      if rel[i, j] == Slave {
        assert rel[j, i] == Master;
        AcyclicAntisymmetric(e, i, j);
      }
    }
  }

  /** Innermost loop of the second fixpoint: extends the nonzero entries through (i, j). */
  method CloseComponentsThrough(rel: array2<Relation>, n: nat, ghost e: Edges, i: nat, j: nat) returns (stable: bool)
    requires Undirected(rel, n, e) && i < n && j < n
    modifies rel
    ensures Undirected(rel, n, e)
    ensures if stable then unchanged(rel) && NonzeroClosedAt(rel, n, i, j) else Blanks(rel, n) < old(Blanks(rel, n))
  {
    stable := true;
    for k := 0 to n
      invariant Undirected(rel, n, e)
      invariant stable ==> unchanged(rel)
      invariant stable ==> forall c: nat :: c < k && rel[i, j] != Unrelated && rel[j, c] != Unrelated ==>
                  rel[i, c] != Unrelated
      invariant !stable ==> Blanks(rel, n) < old(Blanks(rel, n))
    {
      if rel[i, j] != Unrelated && rel[j, k] != Unrelated && rel[i, k] == Unrelated {
        stable := false;
        NonzeroConnected(rel, n, e, i, j);
        NonzeroConnected(rel, n, e, j, k);
        ReachesTransitive(e + Reversed(e), i, j, k);
        CrossRelate(rel, n, e, i, k);
      }
    }
  }

  method CloseComponentsRow(rel: array2<Relation>, n: nat, ghost e: Edges, i: nat) returns (stable: bool)
    requires Undirected(rel, n, e) && i < n
    modifies rel
    ensures Undirected(rel, n, e)
    ensures if stable then unchanged(rel) && forall j: nat :: j < n ==> NonzeroClosedAt(rel, n, i, j)
            else Blanks(rel, n) < old(Blanks(rel, n))
  {
    stable := true;
    for j := 0 to n
      invariant Undirected(rel, n, e)
      invariant if stable then unchanged(rel) && forall b: nat :: b < j ==> NonzeroClosedAt(rel, n, i, b)
                else Blanks(rel, n) < old(Blanks(rel, n))
    {
      var still := CloseComponentsThrough(rel, n, e, i, j);
      stable := stable && still;
    }
  }

  method CloseComponentsPass(rel: array2<Relation>, n: nat, ghost e: Edges) returns (stable: bool)
    requires Undirected(rel, n, e)
    modifies rel
    ensures Undirected(rel, n, e)
    ensures if stable then unchanged(rel) && NonzeroClosed(rel, n) else Blanks(rel, n) < old(Blanks(rel, n))
  {
    stable := true;
    for i := 0 to n
      invariant Undirected(rel, n, e)
      invariant if stable then unchanged(rel) && forall a: nat, b: nat :: a < i && b < n ==>
                  NonzeroClosedAt(rel, n, a, b)
                else Blanks(rel, n) < old(Blanks(rel, n))
    {
      var still := CloseComponentsRow(rel, n, e, i);
      stable := stable && still;
    }
  }

  /** Second fixpoint: afterwards the matrix is nonzero exactly inside components. */
  method CloseComponents(rel: array2<Relation>, n: nat, ghost e: Edges)
    requires Acyclic(e) && Within(e, n)
    requires Directed(rel, n, e)
    requires forall i: nat, j: nat :: i < n && j < n ==> (rel[i, j] == Master <==> Reaches(e, i, j))
    modifies rel
    ensures Classified(rel, n, e)
  {
    DirectedIsUndirected(rel, n, e);
    var stable := false;
    while !stable
      invariant Undirected(rel, n, e)
      invariant stable ==> NonzeroClosed(rel, n)
      decreases Blanks(rel, n), !stable
    {
      stable := CloseComponentsPass(rel, n, e);
    }
    ClosedIsClassified(rel, n, e);
  }

  lemma DirectedIsUndirected(rel: array2<Relation>, n: nat, e: Edges)
    requires Acyclic(e) && Directed(rel, n, e)
    requires forall i: nat, j: nat :: i < n && j < n ==> (rel[i, j] == Master <==> Reaches(e, i, j))
    ensures Undirected(rel, n, e)
  {
    forall i: nat, j: nat | i < n && j < n
      ensures rel[i, j] == Slave <==> i != j && Reaches(e, j, i)
    {
      if i == j {
        ReachesSelf(e, i);
      }
    }
  }

  lemma ClosedIsClassified(rel: array2<Relation>, n: nat, e: Edges)
    requires Acyclic(e) && Within(e, n)
    requires Undirected(rel, n, e) && NonzeroClosed(rel, n)
    ensures Classified(rel, n, e)
  {
    forall i: nat, j: nat | i < n && j < n
      ensures rel[i, j] == Classify(e, i, j)
    {
      if Connected(e, i, j) {
        var p :| Joins(e + Reversed(e), p, i, j);
        NonzeroAlongPath(rel, n, e, p, i, j);
      }
      if rel[i, j] != Unrelated {
        NonzeroConnected(rel, n, e, i, j);
      }
      if Reaches(e, i, j) && Reaches(e, j, i) {
        AcyclicAntisymmetric(e, i, j);
      }
    }
  }

  lemma NonzeroConnected(rel: array2<Relation>, n: nat, e: Edges, i: nat, j: nat)
    requires Undirected(rel, n, e) && i < n && j < n && rel[i, j] != Unrelated
    ensures Connected(e, i, j)
  {
    match rel[i, j]
    case Master => ReachesConnected(e, i, j);
    case Slave => ReachesConnected(e, j, i);
    case Cross =>
  }

  lemma {:induction false} NonzeroAlongPath(rel: array2<Relation>, n: nat, e: Edges, p: seq<nat>, i: nat, j: nat)
    requires Within(e, n) && Undirected(rel, n, e) && NonzeroClosed(rel, n)
    requires Joins(e + Reversed(e), p, i, j) && i < n && j < n
    ensures rel[i, j] != Unrelated
    decreases |p|
  {
    if |p| == 1 {
      ReachesSelf(e, i);
    } else {
      var m := p[1];
      assert (p[0], m) in e + Reversed(e);
      if (i, m) in e {
        ReachesEdge(e, i, m);
      } else {
        assert (m, i) in e;
        ReachesEdge(e, m, i);
      }
      NonzeroAlongPath(rel, n, e, p[1..], m, j);
      assert NonzeroClosedAt(rel, n, i, m);
    }
  }

  // ---------------------------------------------------------------- numbering

  /** The other scopes that must be numbered before i. */
  ghost function Masters(e: Edges, n: nat, i: nat): set<nat> {
    set m: nat | m < n && m != i && Reaches(e, m, i)
  }

  ghost function Listed(order: seq<nat>): set<nat> {
    set k | 0 <= k < |order| :: order[k]
  }

  method CountDependencies(rel: array2<Relation>, n: nat, ghost e: Edges, depends: array<int>)
    requires Acyclic(e) && Classified(rel, n, e) && depends.Length == n
    requires forall i :: 0 <= i < n ==> depends[i] == 0
    modifies depends
    ensures forall i :: 0 <= i < n ==> depends[i] == |Masters(e, n, i)|
  {
    for pos := 0 to n
      invariant forall i :: 0 <= i < pos ==> depends[i] == |Masters(e, n, i)|
      invariant forall i :: pos <= i < n ==> depends[i] == 0
    {
      ghost var seen: set<nat> := {};
      for i := 0 to n
        invariant forall a :: 0 <= a < n && a != pos ==> depends[a] == if a < pos then |Masters(e, n, a)| else 0
        invariant seen == set m: nat | m < i && m != pos && Reaches(e, m, pos)
        invariant depends[pos] == |seen|
      {
        SlaveEntry(rel, n, e, pos, i);
        if rel[pos, i] == Slave {
          depends[pos] := depends[pos] + 1;
          seen := seen + {i};
        }
      }
      assert seen == Masters(e, n, pos);
    }
  }

  lemma SlaveEntry(rel: array2<Relation>, n: nat, e: Edges, i: nat, j: nat)
    requires Acyclic(e) && Classified(rel, n, e) && i < n && j < n
    ensures rel[i, j] == Master <==> Reaches(e, i, j)
    ensures rel[i, j] == Slave <==> i != j && Reaches(e, j, i)
    ensures rel[i, j] != Unrelated <==> Connected(e, i, j)
  {
    ReachesSelf(e, i);
    assert rel[i, j] == Classify(e, i, j);
    if Reaches(e, j, i) {
      ReachesConnected(e, j, i);
      if Reaches(e, i, j) {
        AcyclicAntisymmetric(e, i, j);
      }
    }
    if Reaches(e, i, j) {
      ReachesConnected(e, i, j);
    }
  }

  /** The scopes numbered so far come in an order that respects all constraints,
      and no master of a numbered scope is missing. */
  ghost predicate Ordered(n: nat, e: Edges, order: seq<nat>) {
    Distinct(order) && Topological(e, order) &&
    forall i :: i in order ==> i < n && Masters(e, n, i) <= Listed(order)
  }

  /** Each counter is the number of masters still to be numbered. */
  ghost predicate Waiting(n: nat, e: Edges, order: seq<nat>, depends: seq<int>) {
    |depends| == n && forall i: nat :: i < n ==> depends[i] == |Masters(e, n, i) - Listed(order)|
  }

  /** Each numbered scope records the ID after its range, the others UNKNOWN. */
  ghost predicate EndsRecorded(n: nat, e: Edges, w: seq<nat>, order: seq<nat>, base: nat, next: seq<int>) {
    |next| == n && |w| == n &&
    forall i: nat :: i < n ==> next[i] == if i in order then base + Start(e, w, order, i) + w[i] else UNKNOWN
  }

  /** What holds between two scopes being numbered. */
  ghost predicate Consistent(requests: seq<Request>, e: Edges, order: seq<nat>,
                             depends: array<int>, nextfid: array<int>, nexteid: array<int>)
    reads depends, nextfid, nexteid
  {
    Ordered(|requests|, e, order) &&
    Waiting(|requests|, e, order, depends[..]) &&
    EndsRecorded(|requests|, e, FunctionCounts(requests), order, 0, nextfid[..]) &&
    EndsRecorded(|requests|, e, ExceptionCounts(requests), order, 1, nexteid[..])
  }

  lemma StartAppend(e: Edges, w: seq<nat>, order: seq<nat>, x: nat, i: nat)
    requires i in order
    ensures i in order + [x] && Start(e, w, order + [x], i) == Start(e, w, order, i)
  {
    var t := Position(order, i);
    PositionAppend(order, x, i);
    assert (order + [x])[..t] == order[..t];
  }

  lemma {:induction false} PositionAppend(order: seq<nat>, x: nat, i: nat)
    requires i in order
    ensures i in order + [x] && Position(order + [x], i) == Position(order, i)
    decreases |order|
  {
    if order[0] != i {
      assert (order + [x])[1..] == order[1..] + [x];
      PositionAppend(order[1..], x, i);
    }
  }

  lemma {:induction false} StartOfLast(e: Edges, w: seq<nat>, order: seq<nat>, x: nat)
    requires x !in order
    ensures x in order + [x] && Start(e, w, order + [x], x) == Stack(e, w, order, x)
  {
    LastPosition(order, x);
    assert (order + [x])[..|order|] == order;
  }

  lemma {:induction false} LastPosition(order: seq<nat>, x: nat)
    requires x !in order
    ensures Position(order + [x], x) == |order|
    decreases |order|
  {
    if order != [] {
      assert (order + [x])[1..] == order[1..] + [x];
      LastPosition(order[1..], x);
    }
  }

  /** Unless nothing of x's component is numbered, some range ends where the next
      range of that component begins. */
  lemma {:induction false} StackReached(e: Edges, w: seq<nat>, order: seq<nat>, x: nat) returns (t: nat)
    requires Distinct(order) && Stack(e, w, order, x) != 0
    ensures t < |order| && Connected(e, order[t], x)
    ensures Start(e, w, order, order[t]) + Weight(w, order[t]) == Stack(e, w, order, x)
    decreases |order|
  {
    var k := |order| - 1;
    var p, y := order[..k], order[k];
    assert order == p + [y] && y !in p;
    if Connected(e, y, x) {
      t := k;
      StackOfComponent(e, w, p, y, x);
      StartOfLast(e, w, p, y);
    } else {
      t := StackReached(e, w, p, x);
      StartAppend(e, w, p, y, p[t]);
    }
  }

  /** The largest end of a range in x's component is where the next range of that
      component begins. */
  lemma LargestEnd(e: Edges, w: seq<nat>, order: seq<nat>, x: nat, m: int)
    requires Distinct(order)
    requires forall i :: i in order && Connected(e, i, x) ==> Start(e, w, order, i) + Weight(w, i) <= m
    requires m == 0 || exists i :: i in order && Connected(e, i, x) && m == Start(e, w, order, i) + Weight(w, i)
    ensures m == Stack(e, w, order, x)
  {
    hide Stack, Start, Connected;
    if m != 0 {
      var i :| i in order && Connected(e, i, x) && m == Start(e, w, order, i) + Weight(w, i);
      EndBelowStack(e, w, order, x, i);
    }
    if Stack(e, w, order, x) != 0 {
      var t := StackReached(e, w, order, x);
      assert order[t] in order;
    }
  }

  /** Members of x's component that are numbered already. */
  ghost function Relatives(e: Edges, order: seq<nat>, x: nat): set<nat> {
    set i | i in order && Connected(e, i, x)
  }

  /** f is the largest of `base` and the ends of those candidates below i. */
  ghost predicate Largest(ends: seq<int>, candidates: set<nat>, i: nat, base: int, f: int) {
    (forall a :: a in candidates && a < i && a < |ends| ==> ends[a] <= f) &&
    (f == base || exists a :: a in candidates && a < i && a < |ends| && ends[a] == f)
  }

  ghost predicate Known(order: seq<nat>, next: seq<int>) {
    forall i: nat :: i < |next| ==> (i in order <==> next[i] != UNKNOWN)
  }

  /** The body of the numbering loop for one scope: finds the first free IDs of
      the component and releases the scopes that wait for this one. */
  method FindStart(rel: array2<Relation>, n: nat, ghost e: Edges, ghost order: seq<nat>,
                   depends: array<int>, nextfid: array<int>, nexteid: array<int>, pos: nat) returns (fid: int, eid: int)
    requires Acyclic(e) && Classified(rel, n, e) && pos < n && pos !in order
    requires depends != nextfid && depends != nexteid
    requires depends.Length == n && nextfid.Length == n && nexteid.Length == n
    requires Known(order, nextfid[..]) && Known(order, nexteid[..])
    requires Masters(e, n, pos) <= Listed(order)
    requires forall k :: k in order ==> k < n && Masters(e, n, k) <= Listed(order)
    modifies depends
    ensures Largest(nextfid[..], Relatives(e, order, pos), n, 0, fid)
    ensures Largest(nexteid[..], Relatives(e, order, pos), n, 1, eid)
    ensures forall i: nat :: i < n ==>
              depends[i] == old(depends[i]) - if i != pos && Reaches(e, pos, i) then 1 else 0
  {
    fid, eid := 0, 1;
    ghost var done := Relatives(e, order, pos);
    for i := 0 to n
      invariant forall a: nat :: a < n ==>
                  depends[a] == old(depends[a]) - if a < i && a != pos && Reaches(e, pos, a) then 1 else 0
      invariant Largest(nextfid[..], done, i, 0, fid)
      invariant Largest(nexteid[..], done, i, 1, eid)
    {
      NumberedMaster(rel, n, e, order, pos, i);
      assert i in done ==> i != pos && (rel[pos, i] == Slave || rel[pos, i] == Cross);
      if i != pos && rel[pos, i] != Unrelated {
        if rel[pos, i] == Slave || rel[pos, i] == Cross {
          if nextfid[i] != UNKNOWN && nexteid[i] != UNKNOWN {
            if nextfid[i] > fid { fid := nextfid[i]; }
            if nexteid[i] > eid { eid := nexteid[i]; }
          } else {
            assert rel[pos, i] != Slave;
          }
        } else {
          depends[i] := depends[i] - 1;
        }
      }
    }
  }

  /** A scope whose masters are all numbered has numbered masters and unnumbered
      slaves, so every numbered scope of its component is a master or a cousin. */
  lemma NumberedMaster(rel: array2<Relation>, n: nat, e: Edges, order: seq<nat>, pos: nat, i: nat)
    requires Acyclic(e) && Classified(rel, n, e) && pos < n && i < n && pos !in order
    requires Masters(e, n, pos) <= Listed(order)
    requires forall k :: k in order ==> k < n && Masters(e, n, k) <= Listed(order)
    ensures rel[pos, i] == Slave ==> i in order
    ensures i in order && Connected(e, i, pos) ==> i != pos && (rel[pos, i] == Slave || rel[pos, i] == Cross)
    ensures rel[pos, i] != Unrelated ==> Connected(e, i, pos)
    ensures rel[pos, i] == Master <==> Reaches(e, pos, i)
  {
    SlaveEntry(rel, n, e, pos, i);
    if rel[pos, i] == Slave {
      assert i in Masters(e, n, pos);
    }
    if Connected(e, i, pos) {
      ConnectedSymmetric(e, i, pos);
    }
    if Connected(e, pos, i) {
      ConnectedSymmetric(e, pos, i);
    }
    if i in order {
      assert Masters(e, n, i) <= Listed(order) && pos !in Listed(order);
      assert pos !in Masters(e, n, i);
    }
  }

  lemma LargestIsStack(e: Edges, w: seq<nat>, order: seq<nat>, ends: seq<int>, n: nat, x: nat, base: int, f: int)
    requires Distinct(order) && |ends| == n
    requires forall i :: i in order ==> i < n && ends[i] == base + Start(e, w, order, i) + Weight(w, i)
    requires Largest(ends, Relatives(e, order, x), n, base, f)
    ensures f == base + Stack(e, w, order, x)
  {
    var candidates := Relatives(e, order, x);
    if f != base {
      var a :| a in candidates && a < n && a < |ends| && ends[a] == f;
      assert a in order && Connected(e, a, x) && f - base == Start(e, w, order, a) + Weight(w, a);
    }
    forall i | i in order && Connected(e, i, x)
      ensures Start(e, w, order, i) + Weight(w, i) <= f - base
    {
      assert i in candidates;
    }
    LargestEnd(e, w, order, x, f - base);
  }

  /** Numbers one scope whose masters are all numbered. */
  method NumberScope(rel: array2<Relation>, requests: seq<Request>, ghost e: Edges, ghost order: seq<nat>, peers: Peers,
                     depends: array<int>, nextfid: array<int>, nexteid: array<int>, pos: nat)
    requires Acyclic(e) && Classified(rel, |requests|, e) && pos < |requests| && pos !in order
    requires depends != nextfid && depends != nexteid && nextfid != nexteid
    requires Consistent(requests, e, order, depends, nextfid, nexteid)
    requires depends[pos] == 0
    modifies depends, nextfid, nexteid, peers
    ensures Consistent(requests, e, order + [pos], depends, nextfid, nexteid)
    ensures peers.Numbered(requests[pos].scope, Stack(e, FunctionCounts(requests), order, pos),
                           1 + Stack(e, ExceptionCounts(requests), order, pos))
    ensures forall s: nat, f: int, x: int :: s != requests[pos].scope && old(peers.Numbered(s, f, x)) ==>
              peers.Numbered(s, f, x)
    ensures peers.calls == old(peers.calls) + [requests[pos].scope]
  {
    var fid, eid := Release(rel, requests, e, order, depends, nextfid, nexteid, pos);
    Record(requests, e, order, peers, depends, nextfid, nexteid, pos, fid, eid);
  }

  method Record(requests: seq<Request>, ghost e: Edges, ghost order: seq<nat>, peers: Peers,
                depends: array<int>, nextfid: array<int>, nexteid: array<int>, pos: nat, fid: int, eid: int)
    requires depends != nextfid && depends != nexteid && nextfid != nexteid
    requires pos < |requests| && pos !in order && nextfid.Length == nexteid.Length == |requests|
    requires fid == Stack(e, FunctionCounts(requests), order, pos)
    requires eid == 1 + Stack(e, ExceptionCounts(requests), order, pos)
    requires EndsRecorded(|requests|, e, FunctionCounts(requests), order, 0, nextfid[..])
    requires EndsRecorded(|requests|, e, ExceptionCounts(requests), order, 1, nexteid[..])
    modifies nextfid, nexteid, peers
    ensures EndsRecorded(|requests|, e, FunctionCounts(requests), order + [pos], 0, nextfid[..])
    ensures EndsRecorded(|requests|, e, ExceptionCounts(requests), order + [pos], 1, nexteid[..])
    ensures peers.Numbered(requests[pos].scope, fid, eid)
    ensures forall s: nat, f: int, x: int :: s != requests[pos].scope && old(peers.Numbered(s, f, x)) ==>
              peers.Numbered(s, f, x)
    ensures peers.calls == old(peers.calls) + [requests[pos].scope]
  {
    hide EndsRecorded, Stack, Start, Position;
    AppendEnds(|requests|, e, FunctionCounts(requests), order, 0, nextfid[..], pos);
    AppendEnds(|requests|, e, ExceptionCounts(requests), order, 1, nexteid[..], pos);
    peers.AssignIDs(requests[pos].scope, fid, eid);
    RecordEnd(nextfid, pos, fid + requests[pos].functionCount);
    RecordEnd(nexteid, pos, eid + requests[pos].exceptionCount);
  }

  method RecordEnd(next: array<int>, pos: nat, end: int)
    requires pos < next.Length
    modifies next
    ensures next[..] == old(next[..])[pos := end]
  {
    next[pos] := end;
  }

  /** The first free IDs for a ready scope; the scopes waiting for it are released. */
  method Release(rel: array2<Relation>, requests: seq<Request>, ghost e: Edges, ghost order: seq<nat>,
                 depends: array<int>, nextfid: array<int>, nexteid: array<int>, pos: nat) returns (fid: int, eid: int)
    requires Acyclic(e) && Classified(rel, |requests|, e) && pos < |requests| && pos !in order
    requires depends != nextfid && depends != nexteid
    requires Consistent(requests, e, order, depends, nextfid, nexteid)
    requires depends[pos] == 0
    modifies depends
    ensures fid == Stack(e, FunctionCounts(requests), order, pos)
    ensures eid == 1 + Stack(e, ExceptionCounts(requests), order, pos)
    ensures Ordered(|requests|, e, order + [pos]) && Waiting(|requests|, e, order + [pos], depends[..])
  {
    ghost var waiting := depends[..];
    ReadyMasters(|requests|, e, order, pos);
    fid, eid := FindStart(rel, |requests|, e, order, depends, nextfid, nexteid, pos);
    Released(requests, e, order, pos, waiting, depends[..], nextfid[..], nexteid[..], fid, eid);
  }

  lemma Released(requests: seq<Request>, e: Edges, order: seq<nat>, pos: nat, before: seq<int>, after: seq<int>,
                 nextfid: seq<int>, nexteid: seq<int>, fid: int, eid: int)
    requires Ordered(|requests|, e, order) && pos < |requests| && pos !in order
    requires Masters(e, |requests|, pos) <= Listed(order)
    requires Waiting(|requests|, e, order, before) && |after| == |requests|
    requires forall i: nat :: i < |requests| ==> after[i] == before[i] - if i != pos && Reaches(e, pos, i) then 1 else 0
    requires EndsRecorded(|requests|, e, FunctionCounts(requests), order, 0, nextfid)
    requires EndsRecorded(|requests|, e, ExceptionCounts(requests), order, 1, nexteid)
    requires Largest(nextfid, Relatives(e, order, pos), |requests|, 0, fid)
    requires Largest(nexteid, Relatives(e, order, pos), |requests|, 1, eid)
    ensures fid == Stack(e, FunctionCounts(requests), order, pos)
    ensures eid == 1 + Stack(e, ExceptionCounts(requests), order, pos)
    ensures Ordered(|requests|, e, order + [pos]) && Waiting(|requests|, e, order + [pos], after)
  {
    hide Acyclic, Stack, Start, Position, Listed, Masters;
    LargestIsStack(e, FunctionCounts(requests), order, nextfid, |requests|, pos, 0, fid);
    LargestIsStack(e, ExceptionCounts(requests), order, nexteid, |requests|, pos, 1, eid);
    AppendOrdered(|requests|, e, order, pos);
    AppendWaiting(|requests|, e, order, pos, before, after);
  }

  lemma ReadyMasters(n: nat, e: Edges, order: seq<nat>, pos: nat)
    requires |Masters(e, n, pos) - Listed(order)| == 0
    ensures Masters(e, n, pos) <= Listed(order)
  {
    forall m | m in Masters(e, n, pos)
      ensures m in Listed(order)
    {
      assert m in Listed(order) || m in Masters(e, n, pos) - Listed(order);
    }
  }

  lemma ListedAppend(order: seq<nat>, pos: nat)
    ensures Listed(order + [pos]) == Listed(order) + {pos}
  {
    var next := order + [pos];
    forall k | 0 <= k < |order| ensures order[k] in Listed(next) {
      assert next[k] == order[k];
    }
    assert next[|order|] == pos;
  }

  /** Appending a ready scope keeps the order topological. */
  lemma AppendOrdered(n: nat, e: Edges, order: seq<nat>, pos: nat)
    requires Ordered(n, e, order) && pos < n && pos !in order
    requires Masters(e, n, pos) <= Listed(order)
    ensures Ordered(n, e, order + [pos])
  {
    ListedAppend(order, pos);
    forall t | 0 <= t < |order| ensures !Reaches(e, pos, order[t]) {
      assert order[t] in order && Masters(e, n, order[t]) <= Listed(order) && pos !in Listed(order);
      assert pos !in Masters(e, n, order[t]);
    }
  }

  /** Numbering a scope takes one from the counter of every scope waiting for it. */
  lemma AppendWaiting(n: nat, e: Edges, order: seq<nat>, pos: nat, before: seq<int>, after: seq<int>)
    requires Waiting(n, e, order, before) && pos < n && pos !in order && |after| == n
    requires forall i: nat :: i < n ==> after[i] == before[i] - if i != pos && Reaches(e, pos, i) then 1 else 0
    ensures Waiting(n, e, order + [pos], after)
  {
    ListedAppend(order, pos);
    assert pos !in Listed(order);
    forall i: nat | i < n
      ensures after[i] == |Masters(e, n, i) - Listed(order + [pos])|
    {
      var rest, left := Masters(e, n, i) - Listed(order), Masters(e, n, i) - Listed(order + [pos]);
      if i != pos && Reaches(e, pos, i) {
        assert rest == left + {pos};
      } else {
        assert rest == left;
      }
    }
  }

  lemma AppendEnds(n: nat, e: Edges, w: seq<nat>, order: seq<nat>, base: nat, next: seq<int>, pos: nat)
    requires EndsRecorded(n, e, w, order, base, next) && pos < n && pos !in order
    ensures EndsRecorded(n, e, w, order + [pos], base, next[pos := base + Stack(e, w, order, pos) + w[pos]])
  {
    AppendStarts(e, w, order, pos);
  }

  lemma AppendStarts(e: Edges, w: seq<nat>, order: seq<nat>, pos: nat)
    requires pos !in order
    ensures pos in order + [pos] && Start(e, w, order + [pos], pos) == Stack(e, w, order, pos)
    ensures forall i :: i in order ==> i in order + [pos] && Start(e, w, order + [pos], i) == Start(e, w, order, i)
  {
    StartOfLast(e, w, order, pos);
    forall i | i in order
      ensures i in order + [pos] && Start(e, w, order + [pos], i) == Start(e, w, order, i)
    {
      StartAppend(e, w, order, pos, i);
    }
  }

  ghost predicate InRange(order: seq<nat>, n: nat) {
    forall i :: i in order ==> i < n
  }

  ghost function ScopeAt(requests: seq<Request>, r: nat): nat {
    if r < |requests| then requests[r].scope else 0
  }

  ghost function ScopesOf(requests: seq<Request>, order: seq<nat>): seq<nat> {
    if order == [] then []
    else ScopesOf(requests, order[..|order| - 1]) + [ScopeAt(requests, order[|order| - 1])]
  }

  /** Every scope in `order` carries the IDs of its range, given to it by the one
      call that was made for it. */
  ghost predicate AllNumbered(peers: Peers, requests: seq<Request>, e: Edges, order: seq<nat>, before: seq<nat>)
    reads peers
  {
    InRange(order, |requests|) && peers.calls == before + ScopesOf(requests, order) &&
    forall i :: i in order ==>
      peers.Numbered(requests[i].scope, Start(e, FunctionCounts(requests), order, i),
                     1 + Start(e, ExceptionCounts(requests), order, i))
  }

  method NumberNext(rel: array2<Relation>, requests: seq<Request>, ghost e: Edges, ghost order: seq<nat>,
                    ghost before: seq<nat>,
                    peers: Peers, depends: array<int>, nextfid: array<int>, nexteid: array<int>, pos: nat)
    requires Acyclic(e) && Classified(rel, |requests|, e) && pos < |requests| && pos !in order
    requires depends != nextfid && depends != nexteid && nextfid != nexteid
    requires Consistent(requests, e, order, depends, nextfid, nexteid)
    requires depends[pos] == 0
    requires ScopesDistinct(requests) && AllNumbered(peers, requests, e, order, before)
    modifies depends, nextfid, nexteid, peers
    ensures Consistent(requests, e, order + [pos], depends, nextfid, nexteid)
    ensures AllNumbered(peers, requests, e, order + [pos], before)
  {
    hide Acyclic, Classified, Consistent, Stack, Start, Position;
    NumberScope(rel, requests, e, order, peers, depends, nextfid, nexteid, pos);
    AppendStarts(e, FunctionCounts(requests), order, pos);
    AppendStarts(e, ExceptionCounts(requests), order, pos);
    assert (order + [pos])[..|order|] == order;
  }

  /** A scope waits exactly while some master is missing, so unless every scope
      is numbered there is one that waits for nobody. */
  lemma ReadyScope(n: nat, e: Edges, order: seq<nat>, depends: seq<int>) returns (m: nat)
    requires Acyclic(e) && Within(e, n) && Ordered(n, e, order) && Waiting(n, e, order, depends)
    requires exists i: nat :: i < n && i !in order
    ensures m < n && m !in order && depends[m] == 0
  {
    var open := set i: nat | i < n && i !in order;
    var i: nat :| i < n && i !in order;
    assert i in open;
    m := MinimalNode(e, open);
    forall x | x in Masters(e, n, m)
      ensures x in Listed(order)
    {
      var y := LastEdge(e, x, m);
      assert y in order;
      if y != x {
        assert x in Masters(e, n, y);
      }
    }
    assert Masters(e, n, m) - Listed(order) == {};
  }

  /** A numbered scope waits for nobody. */
  lemma NumberedIsReady(n: nat, e: Edges, order: seq<nat>, depends: seq<int>, i: nat)
    requires Ordered(n, e, order) && Waiting(n, e, order, depends) && i in order
    ensures i < n && depends[i] == 0
  {
    assert Masters(e, n, i) - Listed(order) == {};
  }

  /** One sweep over the scopes. Unless it was the last one, it numbers a scope:
      this is the assertion of the source. */
  method NumberPass(rel: array2<Relation>, requests: seq<Request>, ghost e: Edges, ghost order: seq<nat>,
                    ghost before: seq<nat>, peers: Peers, depends: array<int>, nextfid: array<int>, nexteid: array<int>)
    returns (progress: bool, done: bool, ghost next: seq<nat>)
    requires Acyclic(e) && Within(e, |requests|) && Classified(rel, |requests|, e)
    requires depends != nextfid && depends != nexteid && nextfid != nexteid
    requires Consistent(requests, e, order, depends, nextfid, nexteid)
    requires ScopesDistinct(requests) && AllNumbered(peers, requests, e, order, before)
    modifies depends, nextfid, nexteid, peers
    ensures Consistent(requests, e, next, depends, nextfid, nexteid)
    ensures AllNumbered(peers, requests, e, next, before)
    ensures |order| <= |next| && (progress ==> |order| < |next|)
    ensures done ==> forall i: nat :: i < |requests| ==> i in next
    ensures !done ==> progress
  {
    hide Acyclic, Classified, Consistent, AllNumbered;
    progress, done, next := false, true, order;
    for pos := 0 to |requests|
      invariant Classified(rel, |requests|, e)
      invariant Consistent(requests, e, next, depends, nextfid, nexteid)
      invariant AllNumbered(peers, requests, e, next, before)
      invariant |next| >= |order| && (progress ==> |order| < |next|)
      invariant done ==> forall i: nat :: i < pos ==> i in next
      invariant !progress && done ==> next == order
      invariant !progress ==> forall i: nat :: i < pos ==> i in next || Pending(requests, depends, i)
      invariant !progress && !done ==> exists i: nat :: i < pos && Pending(requests, depends, i)
    {
      Lengths(requests, e, next, depends, nextfid, nexteid, pos);
      if depends[pos] == 0 {
        if nextfid[pos] == UNKNOWN {
          NumberNext(rel, requests, e, next, before, peers, depends, nextfid, nexteid, pos);
          next := next + [pos];
          progress := true;
        }
      } else {
        done := false;
        assert Pending(requests, depends, pos);
      }
    }
    if !progress && !done {
      Stuck(requests, e, next, depends, nextfid, nexteid);
    }
  }

  ghost predicate Pending(requests: seq<Request>, depends: array<int>, i: nat)
    reads depends
  {
    i < |requests| && i < depends.Length && depends[i] != 0
  }

  lemma Lengths(requests: seq<Request>, e: Edges, order: seq<nat>,
                depends: array<int>, nextfid: array<int>, nexteid: array<int>, pos: nat)
    requires Consistent(requests, e, order, depends, nextfid, nexteid) && pos < |requests|
    ensures depends.Length == nextfid.Length == nexteid.Length == |requests|
    ensures nextfid[pos] == UNKNOWN <==> pos !in order
  {
    assert |depends[..]| == |nextfid[..]| == |nexteid[..]| == |requests|;
  }

  /** A sweep in which every scope was numbered or pending leaves nobody pending. */
  lemma Stuck(requests: seq<Request>, e: Edges, order: seq<nat>,
              depends: array<int>, nextfid: array<int>, nexteid: array<int>)
    requires Acyclic(e) && Within(e, |requests|)
    requires Consistent(requests, e, order, depends, nextfid, nexteid)
    requires forall i: nat :: i < |requests| ==> i in order || Pending(requests, depends, i)
    ensures forall i: nat :: !Pending(requests, depends, i)
  {
    if i: nat :| i < |requests| && i !in order {
      var m := ReadyScope(|requests|, e, order, depends[..]);
    }
    forall i: nat | i < |requests|
      ensures !Pending(requests, depends, i)
    {
      assert i in order;
      NumberedIsReady(|requests|, e, order, depends[..], i);
      assert depends[..][i] == 0;
    }
  }

  lemma DistinctBound(order: seq<nat>, n: nat)
    requires Distinct(order) && InRange(order, n)
    ensures |order| <= n
  {
    forall k | 0 <= k < |order| ensures order[k] in Below(n) {
      assert order[k] in order;
    }
    if |order| > n {
      var a, b := Pigeonhole(order, Below(n));
      assert false;
    }
  }

  lemma ConsistentOrder(requests: seq<Request>, e: Edges, order: seq<nat>,
                        depends: array<int>, nextfid: array<int>, nexteid: array<int>)
    requires Consistent(requests, e, order, depends, nextfid, nexteid)
    ensures Distinct(order) && Topological(e, order) && InRange(order, |requests|) && |order| <= |requests|
  {
    DistinctBound(order, |requests|);
  }

  /** The numbering loop: sweeps until every scope is numbered. */
  method NumberScopes(rel: array2<Relation>, requests: seq<Request>, ghost e: Edges, peers: Peers, depends: array<int>,
                      nextfid: array<int>, nexteid: array<int>) returns (ghost order: seq<nat>)
    requires Acyclic(e) && Within(e, |requests|) && Classified(rel, |requests|, e)
    requires depends != nextfid && depends != nexteid && nextfid != nexteid
    requires Consistent(requests, e, [], depends, nextfid, nexteid)
    requires ScopesDistinct(requests)
    modifies depends, nextfid, nexteid, peers
    ensures IsNumbering(order, |requests|) && Topological(e, order)
    ensures AllNumbered(peers, requests, e, order, old(peers.calls))
  {
    hide Consistent, AllNumbered, Acyclic, Classified, Distinct, Topological;
    order := [];
    NoneNumbered(peers, requests, e);
    var progress, done := false, false;
    while !done
      invariant Consistent(requests, e, order, depends, nextfid, nexteid)
      invariant AllNumbered(peers, requests, e, order, old(peers.calls))
      invariant done ==> forall i: nat :: i < |requests| ==> i in order
      invariant |order| <= |requests|
      decreases |requests| - |order|, !done
    {
      progress, done, order := NumberPass(rel, requests, e, order, old(peers.calls), peers, depends, nextfid, nexteid);
      assert progress || done;
      ConsistentOrder(requests, e, order, depends, nextfid, nexteid);
    }
    ConsistentOrder(requests, e, order, depends, nextfid, nexteid);
  }

  lemma NoneNumbered(peers: Peers, requests: seq<Request>, e: Edges)
    ensures AllNumbered(peers, requests, e, [], peers.calls)
    ensures requests == [] ==> IsNumbering([], |requests|) && Topological(e, [])
  {
  }

  class IDSource {
    var requests: seq<Request>
    var constraints: seq<Constraint>

    constructor ()
      ensures requests == [] && constraints == []
    {
      requests, constraints := [], [];
    }

    /** Requests are kept in a list that grows at the front. */
    method Claim(scope: nat, functionCount: nat, exceptionCount: nat)
      modifies this
      ensures requests == [Request(scope, functionCount, exceptionCount)] + old(requests)
      ensures constraints == old(constraints)
    {
      requests := [Request(scope, functionCount, exceptionCount)] + requests;
    }

    method MustNotConflict(thisScope: nat, bossScope: nat)
      modifies this
      ensures constraints == [Constraint(bossScope, thisScope)] + old(constraints)
      ensures requests == old(requests)
    {
      constraints := [Constraint(bossScope, thisScope)] + constraints;
    }

    /** Numbers every claimed scope exactly once, masters before slaves. */
    method Commit(peers: Peers) returns (ghost order: seq<nat>)
      requires ScopesDistinct(requests) && AllClaimed(requests, constraints)
      requires Acyclic(EdgesOf(requests, constraints))
      modifies peers
      ensures IsNumbering(order, |requests|) && Topological(EdgesOf(requests, constraints), order)
      ensures AllNumbered(peers, requests, EdgesOf(requests, constraints), order, old(peers.calls))
    {
      hide Acyclic, Classified, Consistent, AllNumbered, Directed, HasEdges, Topological, IsNumbering, Masters;
      var classCount := |requests|;
      ghost var e := EdgesOf(requests, constraints);
      order := [];
      if classCount == 0 {
        NoneNumbered(peers, requests, e);
        return;
      }
      var related := new Relation[classCount, classCount];
      var depends := new int[classCount];
      var nextfid := new int[classCount];
      var nexteid := new int[classCount];
      InitCounters(depends, nextfid, nexteid);
      EstablishConstraints(related, requests, constraints);
      CloseMasters(related, classCount, e);
      CloseComponents(related, classCount, e);
      CountDependencies(related, classCount, e, depends);
      NothingNumbered(requests, e, depends, nextfid, nexteid);
      order := NumberScopes(related, requests, e, peers, depends, nextfid, nexteid);
    }
  }

  method InitCounters(depends: array<int>, nextfid: array<int>, nexteid: array<int>)
    requires depends.Length == nextfid.Length == nexteid.Length
    requires depends != nextfid && depends != nexteid && nextfid != nexteid
    modifies depends, nextfid, nexteid
    ensures forall i :: 0 <= i < depends.Length ==> depends[i] == 0 && nextfid[i] == nexteid[i] == UNKNOWN
  {
    for i := 0 to depends.Length
      invariant forall a :: 0 <= a < i ==> depends[a] == 0 && nextfid[a] == nexteid[a] == UNKNOWN
    {
      depends[i], nextfid[i], nexteid[i] := 0, UNKNOWN, UNKNOWN;
    }
  }

  lemma NothingNumbered(requests: seq<Request>, e: Edges, depends: array<int>, nextfid: array<int>, nexteid: array<int>)
    requires depends.Length == nextfid.Length == nexteid.Length == |requests|
    requires forall i :: 0 <= i < |requests| ==> depends[i] == |Masters(e, |requests|, i)|
    requires forall i :: 0 <= i < |requests| ==> nextfid[i] == nexteid[i] == UNKNOWN
    ensures Consistent(requests, e, [], depends, nextfid, nexteid)
  {
    assert Listed([]) == {};
    forall i | 0 <= i < |requests|
      ensures Masters(e, |requests|, i) - Listed([]) == Masters(e, |requests|, i)
    {
    }
  }
}
