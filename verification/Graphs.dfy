/** Finite directed graphs over numbered nodes: reachability, acyclicity, and
    the facts about acyclic graphs that the orderings of the compiler rest on. */
module Graphs {

  type Edges = set<(nat, nat)>

  ghost predicate IsPath(e: Edges, p: seq<nat>) {
    |p| >= 1 && forall k :: 0 <= k < |p| - 1 ==> (p[k], p[k + 1]) in e
  }

  ghost predicate Joins(e: Edges, p: seq<nat>, i: nat, j: nat) {
    IsPath(e, p) && p[0] == i && p[|p| - 1] == j
  }

  /** Reflexive and transitive: every node reaches itself. */
  ghost predicate Reaches(e: Edges, i: nat, j: nat) {
    exists p :: Joins(e, p, i, j)
  }

  ghost predicate Acyclic(e: Edges) {
    forall p: seq<nat> :: IsPath(e, p) && |p| >= 2 ==> p[0] != p[|p| - 1]
  }

  ghost function Reversed(e: Edges): Edges {
    set x | x in e :: (x.1, x.0)
  }

  /** Membership in the same component of the undirected graph. */
  ghost predicate Connected(e: Edges, i: nat, j: nat) {
    Reaches(e + Reversed(e), i, j)
  }

  ghost predicate Within(e: Edges, n: nat) {
    forall x :: x in e ==> x.0 < n && x.1 < n
  }

  lemma ReachesSelf(e: Edges, i: nat)
    ensures Reaches(e, i, i)
  {
    assert Joins(e, [i], i, i);
  }

  lemma ReachesEdge(e: Edges, i: nat, j: nat)
    requires (i, j) in e
    ensures Reaches(e, i, j)
  {
    assert Joins(e, [i, j], i, j);
  }

  lemma ReachesTransitive(e: Edges, i: nat, j: nat, k: nat)
    requires Reaches(e, i, j) && Reaches(e, j, k)
    ensures Reaches(e, i, k)
  {
    var p :| Joins(e, p, i, j);
    var q :| Joins(e, q, j, k);
    assert Joins(e, p + q[1..], i, k);
  }

  lemma ReachesMonotone(e: Edges, f: Edges, i: nat, j: nat)
    requires e <= f && Reaches(e, i, j)
    ensures Reaches(f, i, j)
  {
    var p :| Joins(e, p, i, j);
    assert Joins(f, p, i, j);
  }

  lemma {:induction false} PathBackwards(e: Edges, p: seq<nat>, i: nat, j: nat)
    requires Joins(e, p, i, j)
    requires forall x :: x in e ==> (x.1, x.0) in e
    ensures Reaches(e, j, i)
    decreases |p|
  {
    if |p| == 1 {
      ReachesSelf(e, i);
    } else {
      PathBackwards(e, p[1..], p[1], j);
      assert (p[0], p[1]) in e;
      ReachesEdge(e, p[1], i);
      ReachesTransitive(e, j, p[1], i);
    }
  }

  lemma ConnectedSymmetric(e: Edges, i: nat, j: nat)
    requires Connected(e, i, j)
    ensures Connected(e, j, i)
  {
    var f := e + Reversed(e);
    forall x | x in f ensures (x.1, x.0) in f {
      if x in e {
        assert (x.1, x.0) in Reversed(e);
      } else {
        var y :| y in e && x == (y.1, y.0);
        assert (x.1, x.0) == y;
      }
    }
    var p :| Joins(f, p, i, j);
    PathBackwards(f, p, i, j);
  }

  lemma ReachesConnected(e: Edges, i: nat, j: nat)
    requires Reaches(e, i, j)
    ensures Connected(e, i, j) && Connected(e, j, i)
  {
    ReachesMonotone(e, e + Reversed(e), i, j);
    ConnectedSymmetric(e, i, j);
  }

  /** In an acyclic graph reachability is antisymmetric. */
  lemma AcyclicAntisymmetric(e: Edges, i: nat, j: nat)
    requires Acyclic(e) && Reaches(e, i, j) && Reaches(e, j, i)
    ensures i == j
  {
    if i != j {
      var p :| Joins(e, p, i, j);
      var q :| Joins(e, q, j, i);
      assert Joins(e, p + q[1..], i, i);
      assert false;
    }
  }

  /** Two different nodes joined by reachability are joined by a last edge. */
  lemma LastEdge(e: Edges, i: nat, j: nat) returns (m: nat)
    requires Reaches(e, i, j) && i != j
    ensures Reaches(e, i, m) && (m, j) in e
  {
    var p :| Joins(e, p, i, j);
    m := p[|p| - 2];
    assert Joins(e, p[..|p| - 1], i, m);
  }

  lemma FirstEdge(e: Edges, i: nat, j: nat) returns (m: nat)
    requires Reaches(e, i, j) && i != j
    ensures (i, m) in e && Reaches(e, m, j)
  {
    var p :| Joins(e, p, i, j);
    m := p[1];
    assert Joins(e, p[1..], m, j);
  }

  lemma {:induction false} Pigeonhole(p: seq<nat>, s: set<nat>) returns (a: nat, b: nat)
    requires |p| > |s| && forall k :: 0 <= k < |p| ==> p[k] in s
    ensures a < b < |p| && p[a] == p[b]
    decreases |p|
  {
    var last := p[|p| - 1];
    if k :| 0 <= k < |p| - 1 && p[k] == last {
      a, b := k, |p| - 1;
    } else {
      assert |s - {last}| == |s| - 1;
      a, b := Pigeonhole(p[..|p| - 1], s - {last});
    }
  }

  ghost predicate HasPredecessor(e: Edges, s: set<nat>, m: nat) {
    exists x :: x in s && (x, m) in e
  }

  lemma {:induction false} BackwardWalk(e: Edges, s: set<nat>, k: nat) returns (p: seq<nat>)
    requires s != {} && k >= 1
    requires forall m :: m in s ==> HasPredecessor(e, s, m)
    ensures IsPath(e, p) && |p| == k && forall i :: 0 <= i < k ==> p[i] in s
  {
    if k == 1 {
      var m :| m in s;
      p := [m];
    } else {
      var q := BackwardWalk(e, s, k - 1);
      assert q[0] in s;
      var x :| x in s && (x, q[0]) in e;
      p := [x] + q;
      forall i | 0 <= i < |p| - 1 ensures (p[i], p[i + 1]) in e {
        if i > 0 {
          assert (q[i - 1], q[i]) in e;
        }
      }
    }
  }

  /** Every nonempty set of nodes of an acyclic graph has a member without a
      predecessor in the set. */
  lemma MinimalNode(e: Edges, s: set<nat>) returns (m: nat)
    requires Acyclic(e) && s != {}
    ensures m in s && forall x :: x in s ==> (x, m) !in e
  {
    if forall m :: m in s ==> HasPredecessor(e, s, m) {
      var p := BackwardWalk(e, s, |s| + 1);
      var a, b := Pigeonhole(p, s);
      var q := p[a..b + 1];
      forall i | 0 <= i < |q| - 1 ensures (q[i], q[i + 1]) in e {
        assert (p[a + i], p[a + i + 1]) in e;
      }
      assert IsPath(e, q);
      assert false;
    }
    m :| m in s && !HasPredecessor(e, s, m);
  }

  /** Reachability is a step along one edge, followed by reachability. */
  lemma ReachesUnfold(e: Edges, i: nat, j: nat)
    ensures Reaches(e, i, j) <==> i == j || exists m :: (i, m) in e && Reaches(e, m, j)
  {
    if Reaches(e, i, j) && i != j {
      var m := FirstEdge(e, i, j);
    }
    if i == j {
      ReachesSelf(e, i);
    }
    if m :| (i, m) in e && Reaches(e, m, j) {
      ReachesEdge(e, i, m);
      ReachesTransitive(e, i, m, j);
    }
  }

  lemma {:induction false} RankAlongPath(e: Edges, rank: nat -> nat, p: seq<nat>)
    requires forall x :: x in e ==> rank(x.0) < rank(x.1)
    requires IsPath(e, p)
    ensures rank(p[0]) + |p| - 1 <= rank(p[|p| - 1])
    decreases |p|
  {
    if |p| > 1 {
      assert (p[0], p[1]) in e;
      RankAlongPath(e, rank, p[1..]);
    }
  }

  lemma RankedIsAcyclic(e: Edges, rank: nat -> nat)
    requires forall x :: x in e ==> rank(x.0) < rank(x.1)
    ensures Acyclic(e)
  {
    forall p: seq<nat> | IsPath(e, p) && |p| >= 2
      ensures p[0] != p[|p| - 1]
    {
      RankAlongPath(e, rank, p);
    }
  }

  ghost function Below(n: nat): (s: set<nat>)
    ensures |s| == n && forall i: nat :: i in s <==> i < n
  {
    if n == 0 then {} else Below(n - 1) + {n - 1}
  }

  /** The other nodes that x reaches. */
  ghost function Beyond(e: Edges, n: nat, x: nat): set<nat> {
    set y | y in Below(n) && y != x && Reaches(e, x, y)
  }

  ghost function Depth(e: Edges, n: nat, x: nat): (d: nat)
    ensures d <= n
  {
    assert Beyond(e, n, x) <= Below(n);
    SubsetSize(Beyond(e, n, x), Below(n));
    |Beyond(e, n, x)|
  }

  lemma {:induction false} SubsetSize(s: set<nat>, t: set<nat>)
    requires s <= t
    ensures |s| <= |t|
  {
    assert t == s + (t - s);
  }

  /** Along an edge of an acyclic graph fewer nodes remain reachable. */
  lemma DepthDecreases(e: Edges, n: nat, x: nat, y: nat)
    requires Acyclic(e) && Within(e, n) && (x, y) in e
    ensures Depth(e, n, y) < Depth(e, n, x)
  {
    var a, b := Beyond(e, n, x), Beyond(e, n, y);
    ReachesEdge(e, x, y);
    assert IsPath(e, [x, y]);
    assert y in a && y !in b;
    forall z | z in b ensures z in a {
      ReachesTransitive(e, x, y, z);
      if z == x {
        AcyclicAntisymmetric(e, x, y);
      }
    }
    SubsetSize(b, a - {y});
  }

  lemma DepthAlongReach(e: Edges, n: nat, x: nat, y: nat)
    requires Acyclic(e) && Within(e, n) && Reaches(e, x, y) && x != y
    ensures Depth(e, n, y) < Depth(e, n, x)
    decreases Depth(e, n, x)
  {
    var m := FirstEdge(e, x, y);
    DepthDecreases(e, n, x, m);
    if m != y {
      DepthAlongReach(e, n, m, y);
    }
  }
}
