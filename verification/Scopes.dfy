/** The scope tree of an IDL file, and the walk over it that posts ID requests
    and constraints. Scopes are named by their index in the tree. */
module Scopes {
  import opened Graphs
  import opened IdSource
  import opened Wrappers

  /** fid is UNKNOWN unless the operation carries an explicit number. */
  datatype Operation = Operation(fid: int, kernel: bool)

  datatype Scope = Scope(isInterface: bool, iid: int, parent: Option<nat>,
                         interfaces: seq<nat>, submodules: seq<nat>, superclasses: seq<nat>,
                         operations: seq<Operation>, exceptions: nat)

  type Tree = seq<Scope>

  function Children(tree: Tree, s: nat): seq<nat>
    requires s < |tree|
  {
    tree[s].interfaces + tree[s].submodules
  }

  predicate IsUp(tree: Tree, x: nat, y: nat) {
    x < |tree| && y < |tree| && (tree[x].parent == Some(y) || y in tree[x].superclasses)
  }

  /** From each scope to its parent and its direct superclasses. */
  ghost function Up(tree: Tree): (e: Edges)
    ensures Within(e, |tree|)
    ensures forall x: nat, y: nat :: (x, y) in e <==> IsUp(tree, x, y)
  {
    set x, y | x in Graphs.Below(|tree|) && y in Graphs.Below(|tree|) && IsUp(tree, x, y) :: (x, y)
  }

  ghost function ParentEdges(tree: Tree): (e: Edges)
    ensures Within(e, |tree|) && e <= Up(tree)
    ensures forall x: nat, y: nat :: (x, y) in e <==> x < |tree| && y < |tree| && tree[x].parent == Some(y)
  {
    set x, y | x in Graphs.Below(|tree|) && y in Graphs.Below(|tree|) && tree[x].parent == Some(y) :: (x, y)
  }

  /** Children and parents agree, only interfaces have superclasses, and neither
      nesting nor inheritance runs in a circle. */
  ghost predicate WellFormed(tree: Tree) {
    (forall s: nat :: s < |tree| ==> Nests(tree, s)) &&
    (forall c: nat :: c < |tree| && tree[c].parent.Some? ==>
        tree[c].parent.value < |tree| && c in Children(tree, tree[c].parent.value)) &&
    (forall s: nat :: s < |tree| ==> Distinct(Children(tree, s))) &&
    (forall s: nat :: s < |tree| ==> Inherits(tree, s)) &&
    Acyclic(Up(tree))
  }

  ghost predicate Nests(tree: Tree, s: nat)
    requires s < |tree|
  {
    forall k :: 0 <= k < |Children(tree, s)| ==>
      Children(tree, s)[k] < |tree| && tree[Children(tree, s)[k]].parent == Some(s)
  }

  ghost predicate Inherits(tree: Tree, s: nat)
    requires s < |tree|
  {
    (tree[s].superclasses != [] ==> tree[s].isInterface) &&
    forall k :: 0 <= k < |tree[s].superclasses| ==>
      tree[s].superclasses[k] < |tree| && tree[tree[s].superclasses[k]].isInterface
  }

  ghost function Height(tree: Tree, s: nat): (h: nat)
    ensures h <= |tree|
  {
    Depth(Up(tree), |tree|, s)
  }

  /** IDs may only clash between interfaces that share an interface ID. */
  predicate Comparable(tree: Tree, s: nat, t: nat) {
    s < |tree| && t < |tree| && tree[s].isInterface && tree[t].isInterface && tree[s].iid == tree[t].iid
  }

  /** m is found walking upwards from `from`, and compares with the invoker. */
  ghost predicate Posted(tree: Tree, from: nat, invoker: nat, m: nat) {
    Reaches(Up(tree), from, m) && Comparable(tree, m, invoker)
  }

  lemma SuperclassIsUp(tree: Tree, s: nat, k: nat)
    requires WellFormed(tree) && s < |tree| && k < |tree[s].superclasses|
    ensures IsUp(tree, s, tree[s].superclasses[k]) && tree[tree[s].superclasses[k]].isInterface && tree[s].isInterface
  {
    assert Inherits(tree, s);
  }

  lemma PostedUnfold(tree: Tree, from: nat, invoker: nat, m: nat)
    requires WellFormed(tree) && from < |tree|
    ensures Posted(tree, from, invoker, m) <==>
              (m == from && Comparable(tree, m, invoker))
              || (tree[from].parent.Some? && Posted(tree, tree[from].parent.value, invoker, m))
              || exists k :: 0 <= k < |tree[from].superclasses| && Posted(tree, tree[from].superclasses[k], invoker, m)
  {
    ReachesUnfold(Up(tree), from, m);
    if Posted(tree, from, invoker, m) && m != from {
      var y := FirstEdge(Up(tree), from, m);
      assert IsUp(tree, from, y);
      if tree[from].parent != Some(y) {
        var k :| 0 <= k < |tree[from].superclasses| && tree[from].superclasses[k] == y;
        assert Posted(tree, tree[from].superclasses[k], invoker, m);
      }
    }
    if tree[from].parent.Some? {
      assert (from, tree[from].parent.value) in Up(tree);
    }
    if k :| 0 <= k < |tree[from].superclasses| && Posted(tree, tree[from].superclasses[k], invoker, m) {
      SuperclassIsUp(tree, from, k);
      assert (from, tree[from].superclasses[k]) in Up(tree);
    }
  }

  lemma HeightOfUp(tree: Tree, x: nat, y: nat)
    requires WellFormed(tree) && IsUp(tree, x, y)
    ensures Height(tree, y) < Height(tree, x)
  {
    DepthDecreases(Up(tree), |tree|, x, y);
  }

  /** The masters posted for the invoker by this scope itself, its parent and its
      first k superclasses. */
  ghost predicate PostedSoFar(tree: Tree, thisScope: nat, k: nat, invoker: nat, m: nat)
    requires thisScope < |tree| && k <= |tree[thisScope].superclasses|
  {
    (m == thisScope && Comparable(tree, m, invoker))
    || (tree[thisScope].parent.Some? && Posted(tree, tree[thisScope].parent.value, invoker, m))
    || exists j :: 0 <= j < k && Posted(tree, tree[thisScope].superclasses[j], invoker, m)
  }

  /** Posts a constraint for every comparable scope at or above this one, the
      scope above being the master. */
  method AvoidConflicts(tree: Tree, thisScope: nat, invoker: nat, source: IDSource)
    requires WellFormed(tree) && thisScope < |tree| && invoker < |tree|
    modifies source
    ensures source.requests == old(source.requests)
    ensures forall c :: c in source.constraints <==>
              c in old(source.constraints) || (c.slave == invoker && Posted(tree, thisScope, invoker, c.master))
    decreases Height(tree, thisScope)
  {
    hide Posted, Height, Acyclic;
    if tree[thisScope].isInterface && tree[invoker].isInterface {
      if tree[thisScope].iid == tree[invoker].iid {
        source.MustNotConflict(invoker, thisScope);
      }
    }
    if tree[thisScope].parent.Some? {
      HeightOfUp(tree, thisScope, tree[thisScope].parent.value);
      AvoidConflicts(tree, tree[thisScope].parent.value, invoker, source);
    }
    for k := 0 to |tree[thisScope].superclasses|
      invariant source.requests == old(source.requests)
      invariant forall c :: c in source.constraints <==>
                  c in old(source.constraints)
                    || (c.slave == invoker && PostedSoFar(tree, thisScope, k, invoker, c.master))
    {
      SuperclassIsUp(tree, thisScope, k);
      HeightOfUp(tree, thisScope, tree[thisScope].superclasses[k]);
      AvoidConflicts(tree, tree[thisScope].superclasses[k], invoker, source);
    }
    forall m: nat
      ensures PostedSoFar(tree, thisScope, |tree[thisScope].superclasses|, invoker, m) <==>
                Posted(tree, thisScope, invoker, m)
    {
      PostedUnfold(tree, thisScope, invoker, m);
    }
  }

  /** x lies in the subtree below s, or is s. */
  ghost predicate Inside(tree: Tree, x: nat, s: nat) {
    Reaches(ParentEdges(tree), x, s)
  }

  /** The constraint that m is a master of x: m is a comparable scope strictly
      above x along parents and superclasses. */
  ghost predicate Above(tree: Tree, x: nat, m: nat) {
    x != m && Posted(tree, x, x, m)
  }

  function RequestOf(tree: Tree, s: nat): Request
    requires s < |tree|
  {
    Request(s, |tree[s].operations|, tree[s].exceptions)
  }

  ghost predicate ClaimedFor(tree: Tree, added: seq<Request>, members: set<nat>) {
    ScopesDistinct(added) &&
    (forall r :: r in added ==> r.scope in members && r.scope < |tree| && r == RequestOf(tree, r.scope)) &&
    (forall x :: x in members ==> Claimed(added, x))
  }

  ghost function Subtree(tree: Tree, s: nat): set<nat> {
    set x | x in Graphs.Below(|tree|) && Inside(tree, x, s)
  }

  /** s itself and the subtrees of its first k children. */
  ghost function SubtreeSoFar(tree: Tree, s: nat, k: nat): set<nat>
    requires s < |tree| && k <= |Children(tree, s)|
  {
    if k == 0 then {s} else SubtreeSoFar(tree, s, k - 1) + Subtree(tree, Children(tree, s)[k - 1])
  }

  lemma ChildIsBelow(tree: Tree, s: nat, k: nat)
    requires WellFormed(tree) && s < |tree| && k < |Children(tree, s)|
    ensures var c := Children(tree, s)[k];
            c < |tree| && tree[c].parent == Some(s) && (c, s) in ParentEdges(tree) && Height(tree, s) < Height(tree, c)
  {
    var c := Children(tree, s)[k];
    assert Nests(tree, s);
    HeightOfUp(tree, c, s);
  }

  lemma {:induction false} SubtreeSoFarMember(tree: Tree, s: nat, k: nat, x: nat)
    requires WellFormed(tree) && s < |tree| && k <= |Children(tree, s)|
    ensures x in SubtreeSoFar(tree, s, k) <==>
              x == s || exists j :: 0 <= j < k && x in Subtree(tree, Children(tree, s)[j])
    decreases k
  {
    hide WellFormed, Children, Subtree;
    if k > 0 {
      SubtreeSoFarMember(tree, s, k - 1, x);
      var last := Children(tree, s)[k - 1];
      assert SubtreeSoFar(tree, s, k) == SubtreeSoFar(tree, s, k - 1) + Subtree(tree, last);
    }
  }

  lemma SubtreeIsWhole(tree: Tree, s: nat)
    requires WellFormed(tree) && s < |tree|
    ensures SubtreeSoFar(tree, s, |Children(tree, s)|) == Subtree(tree, s)
  {
    var n := |Children(tree, s)|;
    forall x: nat
      ensures x in SubtreeSoFar(tree, s, n) <==> x in Subtree(tree, s)
    {
      SubtreeSoFarMember(tree, s, n, x);
      ReachesSelf(ParentEdges(tree), s);
      if x in Subtree(tree, s) && x != s {
        var c := LastEdge(ParentEdges(tree), x, s);
        assert c in Children(tree, s);
        var j :| 0 <= j < n && Children(tree, s)[j] == c;
        assert x in Subtree(tree, Children(tree, s)[j]);
      }
      if j :| 0 <= j < n && x in Subtree(tree, Children(tree, s)[j]) {
        ChildIsBelow(tree, s, j);
        ReachesEdge(ParentEdges(tree), Children(tree, s)[j], s);
        ReachesTransitive(ParentEdges(tree), x, Children(tree, s)[j], s);
      }
    }
  }

  /** Parents are unique, so of two scopes around x one contains the other. */
  lemma {:induction false} Nested(tree: Tree, p: seq<nat>, q: seq<nat>, x: nat, a: nat, b: nat)
    requires Joins(ParentEdges(tree), p, x, a) && Joins(ParentEdges(tree), q, x, b)
    ensures Inside(tree, a, b) || Inside(tree, b, a)
    decreases |p|
  {
    if |p| == 1 {
      assert Joins(ParentEdges(tree), q, a, b);
    } else if |q| == 1 {
      assert Joins(ParentEdges(tree), p, b, a);
    } else {
      assert (p[0], p[1]) in ParentEdges(tree) && (q[0], q[1]) in ParentEdges(tree);
      Nested(tree, p[1..], q[1..], p[1], a, b);
    }
  }

  /** Two children of one scope have disjoint subtrees, neither containing s. */
  lemma SiblingsDisjoint(tree: Tree, s: nat, k: nat)
    requires WellFormed(tree) && s < |tree| && k < |Children(tree, s)|
    ensures SubtreeSoFar(tree, s, k) !! Subtree(tree, Children(tree, s)[k])
  {
    var c := Children(tree, s)[k];
    ChildIsBelow(tree, s, k);
    forall x | x in SubtreeSoFar(tree, s, k) && x in Subtree(tree, c)
      ensures false
    {
      SubtreeSoFarMember(tree, s, k, x);
      if x == s {
        CannotContain(tree, s, c);
      } else {
        var j :| 0 <= j < k && x in Subtree(tree, Children(tree, s)[j]);
        var d := Children(tree, s)[j];
        ChildIsBelow(tree, s, j);
        assert Distinct(Children(tree, s)) && c != d;
        var p :| Joins(ParentEdges(tree), p, x, c);
        var q :| Joins(ParentEdges(tree), q, x, d);
        Nested(tree, p, q, x, c, d);
        if Inside(tree, c, d) {
          ParentOutside(tree, s, c, d);
        } else {
          ParentOutside(tree, s, d, c);
        }
      }
    }
  }

  /** A scope is not inside its own child. */
  lemma CannotContain(tree: Tree, s: nat, c: nat)
    requires WellFormed(tree) && (c, s) in ParentEdges(tree)
    ensures !Inside(tree, s, c)
  {
    if Inside(tree, s, c) {
      ReachesMonotone(ParentEdges(tree), Up(tree), s, c);
      ReachesEdge(Up(tree), c, s);
      AcyclicAntisymmetric(Up(tree), s, c);
      assert IsPath(Up(tree), [c, s]);
    }
  }

  lemma ParentOutside(tree: Tree, s: nat, c: nat, d: nat)
    requires WellFormed(tree) && (c, s) in ParentEdges(tree) && (d, s) in ParentEdges(tree) && c != d
    ensures !Inside(tree, c, d)
  {
    if Inside(tree, c, d) {
      var m := FirstEdge(ParentEdges(tree), c, d);
      assert m == s;
      CannotContain(tree, s, d);
    }
  }

  /** Posted by the parent of s and its first k superclasses. */
  ghost predicate PostedAbove(tree: Tree, s: nat, k: nat, m: nat)
    requires s < |tree| && k <= |tree[s].superclasses|
  {
    (tree[s].parent.Some? && Posted(tree, tree[s].parent.value, s, m))
    || exists j :: 0 <= j < k && Posted(tree, tree[s].superclasses[j], s, m)
  }

  lemma PostedAboveIsAbove(tree: Tree, s: nat, m: nat)
    requires WellFormed(tree) && s < |tree|
    ensures PostedAbove(tree, s, |tree[s].superclasses|, m) <==> Above(tree, s, m)
  {
    PostedUnfold(tree, s, s, m);
    if PostedAbove(tree, s, |tree[s].superclasses|, m) && m == s {
      var y: nat;
      if tree[s].parent.Some? && Posted(tree, tree[s].parent.value, s, m) {
        y := tree[s].parent.value;
      } else {
        var j :| 0 <= j < |tree[s].superclasses| && Posted(tree, tree[s].superclasses[j], s, m);
        SuperclassIsUp(tree, s, j);
        y := tree[s].superclasses[j];
      }
      ReachesEdge(Up(tree), s, y);
      AcyclicAntisymmetric(Up(tree), s, y);
      assert IsPath(Up(tree), [s, y]);
    }
  }

  /** The constraints of the walk below s: every scope in `members` with every
      comparable scope above it. */
  ghost predicate ConstrainedFor(tree: Tree, constraints: seq<Constraint>, before: seq<Constraint>, members: set<nat>) {
    forall c :: c in constraints <==> c in before || (c.slave in members && Above(tree, c.slave, c.master))
  }

  method CountOperations(tree: Tree, s: nat) returns (operationCount: nat, exceptionCount: nat)
    requires s < |tree|
    ensures operationCount == |tree[s].operations| && exceptionCount == tree[s].exceptions
  {
    operationCount, exceptionCount := 0, 0;
    for k := 0 to |tree[s].operations|
      invariant operationCount == k
    {
      operationCount := operationCount + 1;
    }
    for k := 0 to tree[s].exceptions
      invariant exceptionCount == k
    {
      exceptionCount := exceptionCount + 1;
    }
  }

  /** Claims IDs for s and everything nested in it, each scope once. */
  method ClaimIDs(tree: Tree, s: nat, source: IDSource) returns (ghost added: seq<Request>)
    requires WellFormed(tree) && s < |tree|
    modifies source
    ensures source.requests == added + old(source.requests)
    ensures ClaimedFor(tree, added, Subtree(tree, s))
    ensures ConstrainedFor(tree, source.constraints, old(source.constraints), Subtree(tree, s))
    decreases |tree| - Height(tree, s)
  {
    hide Height, WellFormed, Posted, ClaimedFor, ConstrainedFor, Above, Subtree, SubtreeSoFar;
    var operationCount, exceptionCount := CountOperations(tree, s);
    source.Claim(s, operationCount, exceptionCount);
    added := [RequestOf(tree, s)];
    FirstClaim(tree, s, source.constraints);
    for k := 0 to |Children(tree, s)|
      invariant source.requests == added + old(source.requests)
      invariant ClaimedFor(tree, added, SubtreeSoFar(tree, s, k))
      invariant ConstrainedFor(tree, source.constraints, old(source.constraints), SubtreeSoFar(tree, s, k) - {s})
    {
      ChildIsBelow(tree, s, k);
      ghost var constraints := source.constraints;
      ghost var more := ClaimIDs(tree, Children(tree, s)[k], source);
      JoinClaims(tree, s, k, more, added);
      JoinConstraints(tree, s, k, old(source.constraints), constraints, source.constraints);
      added := more + added;
    }
    SubtreeIsWhole(tree, s);
    ghost var below := source.constraints;
    AvoidAbove(tree, s, source);
    OwnConstraints(tree, s, old(source.constraints), below, source.constraints);
  }

  method AvoidAbove(tree: Tree, s: nat, source: IDSource)
    requires WellFormed(tree) && s < |tree|
    modifies source
    ensures source.requests == old(source.requests)
    ensures forall c :: c in source.constraints <==>
              c in old(source.constraints) || (c.slave == s && Above(tree, s, c.master))
  {
    hide Posted, Above, Acyclic;
    if tree[s].parent.Some? {
      AvoidConflicts(tree, tree[s].parent.value, s, source);
    }
    for k := 0 to |tree[s].superclasses|
      invariant source.requests == old(source.requests)
      invariant forall c :: c in source.constraints <==>
                  c in old(source.constraints) || (c.slave == s && PostedAbove(tree, s, k, c.master))
    {
      SuperclassIsUp(tree, s, k);
      AvoidConflicts(tree, tree[s].superclasses[k], s, source);
    }
    forall m: nat
      ensures PostedAbove(tree, s, |tree[s].superclasses|, m) <==> Above(tree, s, m)
    {
      PostedAboveIsAbove(tree, s, m);
    }
  }

  lemma FirstClaim(tree: Tree, s: nat, constraints: seq<Constraint>)
    requires s < |tree|
    ensures ClaimedFor(tree, [RequestOf(tree, s)], SubtreeSoFar(tree, s, 0))
    ensures ConstrainedFor(tree, constraints, constraints, SubtreeSoFar(tree, s, 0) - {s})
  {
    var added := [RequestOf(tree, s)];
    assert added[0].scope == s;
    assert Claimed(added, s);
  }

  lemma JoinClaims(tree: Tree, s: nat, k: nat, more: seq<Request>, added: seq<Request>)
    requires WellFormed(tree) && s < |tree| && k < |Children(tree, s)|
    requires ClaimedFor(tree, more, Subtree(tree, Children(tree, s)[k]))
    requires ClaimedFor(tree, added, SubtreeSoFar(tree, s, k))
    ensures ClaimedFor(tree, more + added, SubtreeSoFar(tree, s, k + 1))
  {
    hide WellFormed, Subtree;
    SiblingsDisjoint(tree, s, k);
    var whole := more + added;
    forall x | x in SubtreeSoFar(tree, s, k + 1)
      ensures Claimed(whole, x)
    {
      if x in SubtreeSoFar(tree, s, k) {
        var r :| 0 <= r < |added| && added[r].scope == x;
        assert whole[|more| + r].scope == x;
      } else {
        var r :| 0 <= r < |more| && more[r].scope == x;
        assert whole[r].scope == x;
      }
    }
    forall i, j | 0 <= i < j < |whole|
      ensures whole[i].scope != whole[j].scope
    {
      assert i < |more| ==> more[i] in more;
      assert j >= |more| ==> added[j - |more|] in added;
    }
  }

  lemma JoinConstraints(tree: Tree, s: nat, k: nat, before: seq<Constraint>, middle: seq<Constraint>,
                        after: seq<Constraint>)
    requires WellFormed(tree) && s < |tree| && k < |Children(tree, s)|
    requires ConstrainedFor(tree, middle, before, SubtreeSoFar(tree, s, k) - {s})
    requires ConstrainedFor(tree, after, middle, Subtree(tree, Children(tree, s)[k]))
    ensures ConstrainedFor(tree, after, before, SubtreeSoFar(tree, s, k + 1) - {s})
  {
    SiblingsDisjoint(tree, s, k);
    SubtreeSoFarMember(tree, s, k, s);
  }

  lemma OwnConstraints(tree: Tree, s: nat, before: seq<Constraint>, below: seq<Constraint>, after: seq<Constraint>)
    requires s < |tree|
    requires ConstrainedFor(tree, below, before, Subtree(tree, s) - {s})
    requires forall c :: c in after <==> c in below || (c.slave == s && Above(tree, s, c.master))
    ensures ConstrainedFor(tree, after, before, Subtree(tree, s))
  {
    ReachesSelf(ParentEdges(tree), s);
    assert s in Subtree(tree, s);
  }
}
