/** The ranges that numbering scopes one after the other produces: inside one
    component of the constraint graph each scope starts where the scopes
    numbered before it end. */
module IdRanges {
  import opened Graphs
  import opened Wrappers

  function Weight(w: seq<nat>, x: nat): nat {
    if x < |w| then w[x] else 0
  }

  ghost predicate Covers(order: seq<nat>, n: nat) {
    forall x: nat :: x in order <==> x < n
  }

  /** `order` lists the n nodes, each once. */
  ghost predicate IsNumbering(order: seq<nat>, n: nat) {
    Distinct(order) && Covers(order, n)
  }

  /** No node is listed before a node it depends on. */
  ghost predicate Topological(e: Edges, order: seq<nat>) {
    forall s, t :: 0 <= s < |order| && 0 <= t < |order| && Reaches(e, order[s], order[t]) ==> s <= t
  }

  /** What the nodes of x's component in `order` need together. */
  ghost function Stack(e: Edges, w: seq<nat>, order: seq<nat>, x: nat): nat {
    if order == [] then 0
    else
      Stack(e, w, order[..|order| - 1], x)
      + if Connected(e, order[|order| - 1], x) then Weight(w, order[|order| - 1]) else 0
  }

  function Position(order: seq<nat>, x: nat): (t: nat)
    requires x in order
    ensures t < |order| && order[t] == x && x !in order[..t]
  {
    if order[0] == x then 0 else 1 + Position(order[1..], x)
  }

  /** Where the range of x begins, counted from the first ID of its component. */
  ghost function Start(e: Edges, w: seq<nat>, order: seq<nat>, x: nat): nat
    requires x in order
  {
    Stack(e, w, order[..Position(order, x)], x)
  }

  function Identity(n: nat): (s: seq<nat>)
    ensures |s| == n && forall k :: 0 <= k < n ==> s[k] == k
  {
    seq(n, k requires 0 <= k < n => k)
  }

  /** The sum over a whole component of the n nodes. */
  ghost function Total(e: Edges, w: seq<nat>, n: nat, x: nat): nat {
    Stack(e, w, Identity(n), x)
  }

  lemma {:induction false} StackOfComponent(e: Edges, w: seq<nat>, order: seq<nat>, x: nat, y: nat)
    requires Connected(e, x, y)
    ensures Stack(e, w, order, x) == Stack(e, w, order, y)
    decreases |order|
  {
    if order != [] {
      var last := order[|order| - 1];
      StackOfComponent(e, w, order[..|order| - 1], x, y);
      var f := e + Reversed(e);
      ConnectedSymmetric(e, x, y);
      if Connected(e, last, x) {
        ReachesTransitive(f, last, x, y);
      }
      if Connected(e, last, y) {
        ReachesTransitive(f, last, y, x);
      }
    }
  }

  lemma {:induction false} StackGrows(e: Edges, w: seq<nat>, order: seq<nat>, s: nat, t: nat, x: nat)
    requires s <= t <= |order|
    ensures Stack(e, w, order[..s], x) <= Stack(e, w, order[..t], x)
    decreases t
  {
    if s < t {
      StackGrows(e, w, order, s, t - 1, x);
      assert order[..t][..t - 1] == order[..t - 1];
    }
  }

  /** The step from one prefix to the next adds one member's weight. */
  lemma StackStep(e: Edges, w: seq<nat>, order: seq<nat>, t: nat, x: nat)
    requires t < |order|
    ensures Stack(e, w, order[..t + 1], x)
         == Stack(e, w, order[..t], x) + if Connected(e, order[t], x) then Weight(w, order[t]) else 0
  {
    assert order[..t + 1][..t] == order[..t];
  }

  lemma PositionUnique(order: seq<nat>, t: nat)
    requires Distinct(order) && t < |order|
    ensures Position(order, order[t]) == t
  {
  }

  /** Two scopes of one component, the first numbered earlier: the range of the
      first ends at or before the start of the second. */
  lemma RangesInOrder(e: Edges, w: seq<nat>, order: seq<nat>, x: nat, y: nat)
    requires x in order && y in order && Connected(e, x, y)
    requires Position(order, x) < Position(order, y)
    ensures Start(e, w, order, x) + Weight(w, x) <= Start(e, w, order, y)
  {
    var s, t := Position(order, x), Position(order, y);
    ConnectedSymmetric(e, x, y);
    StackOfComponent(e, w, order[..s], x, y);
    StackStep(e, w, order, s, y);
    StackGrows(e, w, order, s + 1, t, y);
  }

  lemma EndBelowStack(e: Edges, w: seq<nat>, order: seq<nat>, x: nat, y: nat)
    requires y in order && Connected(e, y, x)
    ensures Start(e, w, order, y) + Weight(w, y) <= Stack(e, w, order, x)
  {
    var t := Position(order, y);
    StackOfComponent(e, w, order[..t], y, x);
    StackStep(e, w, order, t, x);
    StackGrows(e, w, order, t + 1, |order|, x);
    assert order[..|order|] == order;
  }

  lemma {:induction false} SlotExists(e: Edges, w: seq<nat>, order: seq<nat>, x: nat, v: nat) returns (t: nat)
    requires v < Stack(e, w, order, x)
    ensures t < |order| && Connected(e, order[t], x)
    ensures Stack(e, w, order[..t], x) <= v < Stack(e, w, order[..t], x) + Weight(w, order[t])
    decreases |order|
  {
    var p := order[..|order| - 1];
    if v < Stack(e, w, p, x) {
      t := SlotExists(e, w, p, x, v);
      assert p[..t] == order[..t];
    } else {
      t := |order| - 1;
    }
  }

  lemma {:induction false} StackRemove(e: Edges, w: seq<nat>, order: seq<nat>, t: nat, x: nat)
    requires t < |order|
    ensures Stack(e, w, order, x) == Stack(e, w, order[..t] + order[t + 1..], x)
            + if Connected(e, order[t], x) then Weight(w, order[t]) else 0
    decreases |order|
  {
    var k := |order| - 1;
    if t == k {
      assert order[..t] + order[t + 1..] == order[..k];
    } else {
      StackRemove(e, w, order[..k], t, x);
      var rest := order[..t] + order[t + 1..];
      RemoveBeforeLast(order, t);
      assert order[..k][t] == order[t];
    }
  }

  lemma RemoveBeforeLast(order: seq<nat>, t: nat)
    requires t < |order| - 1
    ensures var k, rest := |order| - 1, order[..t] + order[t + 1..];
            |rest| == k && rest[k - 1] == order[k] && rest[..k - 1] == order[..k][..t] + order[..k][t + 1..]
  {
    var k, rest := |order| - 1, order[..t] + order[t + 1..];
    assert rest[..k - 1] == order[..t] + order[t + 1..k];
    assert order[..k][..t] == order[..t] && order[..k][t + 1..] == order[t + 1..k];
  }

  /** The total of a component does not depend on the order of numbering. */
  lemma {:induction false} StackOfNumbering(e: Edges, w: seq<nat>, order: seq<nat>, n: nat, x: nat)
    requires IsNumbering(order, n)
    ensures Stack(e, w, order, x) == Total(e, w, n, x)
    decreases n
  {
    assert order == [] || order[0] in order;
    if n == 0 {
    } else {
      var t := Position(order, n - 1);
      var rest := order[..t] + order[t + 1..];
      StackRemove(e, w, order, t, x);
      forall y: nat ensures y in rest <==> y < n - 1 {
        if y in rest {
          assert y in order && y != n - 1;
        }
        if y < n - 1 {
          assert y in order;
          var k := Position(order, y);
          assert rest[if k < t then k else k - 1] == y;
        }
      }
      StackOfNumbering(e, w, rest, n - 1, x);
      assert Identity(n)[..n - 1] == Identity(n - 1);
    }
  }

  ghost predicate Holds(e: Edges, w: seq<nat>, order: seq<nat>, y: nat, v: nat)
    requires y in order
  {
    Start(e, w, order, y) <= v < Start(e, w, order, y) + Weight(w, y)
  }

  /** Some member of x's component owns the ID v. */
  ghost predicate Filled(e: Edges, w: seq<nat>, order: seq<nat>, x: nat, v: nat) {
    exists y :: y in order && Connected(e, y, x) && Holds(e, w, order, y, v)
  }

  /** The ranges of a component tile [0, Total): each ID below the total lies in
      the range of exactly one member, and no range reaches past the total. */
  lemma ComponentTiling(e: Edges, w: seq<nat>, order: seq<nat>, n: nat, x: nat)
    requires IsNumbering(order, n) && x < n
    ensures forall y :: y in order && Connected(e, y, x) ==> Start(e, w, order, y) + Weight(w, y) <= Total(e, w, n, x)
    ensures forall v: nat :: v < Total(e, w, n, x) ==> Filled(e, w, order, x, v)
    ensures forall v: nat, y, z | y in order && z in order && Connected(e, y, x) && Connected(e, z, x)
              && Holds(e, w, order, y, v) && Holds(e, w, order, z, v) :: y == z
  {
    StackOfNumbering(e, w, order, n, x);
    forall y | y in order && Connected(e, y, x)
      ensures Start(e, w, order, y) + Weight(w, y) <= Total(e, w, n, x)
    {
      EndBelowStack(e, w, order, x, y);
    }
    forall v: nat | v < Total(e, w, n, x)
      ensures Filled(e, w, order, x, v)
    {
      var t := SlotExists(e, w, order, x, v);
      PositionUnique(order, t);
      StackOfComponent(e, w, order[..t], order[t], x);
      assert Holds(e, w, order, order[t], v);
    }
    forall v: nat, y, z | y in order && z in order && Connected(e, y, x) && Connected(e, z, x)
              && Holds(e, w, order, y, v) && Holds(e, w, order, z, v)
      ensures y == z
    {
      ConnectedSymmetric(e, z, x);
      ConnectedSymmetric(e, y, x);
      ReachesTransitive(e + Reversed(e), y, x, z);
      ReachesTransitive(e + Reversed(e), z, x, y);
      if Position(order, y) < Position(order, z) {
        RangesInOrder(e, w, order, y, z);
      } else if Position(order, z) < Position(order, y) {
        RangesInOrder(e, w, order, z, y);
      }
    }
  }

  /** A master's range lies below its slave's. */
  lemma MasterBelowSlave(e: Edges, w: seq<nat>, order: seq<nat>, n: nat, i: nat, j: nat)
    requires IsNumbering(order, n) && Topological(e, order)
    requires i < n && j < n && i != j && Reaches(e, i, j)
    ensures Start(e, w, order, i) + Weight(w, i) <= Start(e, w, order, j)
  {
    assert i in order && j in order;
    var s, t := Position(order, i), Position(order, j);
    assert Reaches(e, order[s], order[t]);
    ReachesConnected(e, i, j);
    RangesInOrder(e, w, order, i, j);
  }
}
