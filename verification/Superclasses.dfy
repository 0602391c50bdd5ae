/** The list of all superclasses of an interface, and the inherited operations
    collected from it. */
module Superclasses {
  import opened Graphs
  import opened Scopes
  import opened Dispatch
  import opened Wrappers

  /** The interfaces met when every inheritance path is walked depth first; an
      interface inherited along several paths is met several times. */
  ghost function Preorder(tree: Tree, iface: nat): seq<nat>
    requires WellFormed(tree) && iface < |tree|
    decreases Height(tree, iface), 1, 0
  {
    [iface] + PreorderOfSuperclasses(tree, iface, |tree[iface].superclasses|)
  }

  ghost function PreorderOfSuperclasses(tree: Tree, iface: nat, k: nat): seq<nat>
    requires WellFormed(tree) && iface < |tree| && k <= |tree[iface].superclasses|
    decreases Height(tree, iface), 0, k
  {
    if k == 0 then []
    else
      SuperclassIsUp(tree, iface, k - 1);
      HeightOfUp(tree, iface, tree[iface].superclasses[k - 1]);
      PreorderOfSuperclasses(tree, iface, k - 1) + Preorder(tree, tree[iface].superclasses[k - 1])
  }

  /** Appends the elements of s that are not there yet. */
  function Absorb(result: seq<nat>, s: seq<nat>): seq<nat>
    decreases |s|
  {
    if s == [] then result
    else Absorb(if s[0] in result then result else result + [s[0]], s[1..])
  }

  function FirstOccurrences(s: seq<nat>): seq<nat> {
    Absorb([], s)
  }

  lemma {:induction false} AbsorbElements(result: seq<nat>, s: seq<nat>)
    ensures result <= Absorb(result, s)
    ensures forall x :: x in Absorb(result, s) <==> x in result || x in s
    ensures Distinct(result) ==> Distinct(Absorb(result, s))
    decreases |s|
  {
    if s != [] {
      AbsorbElements(if s[0] in result then result else result + [s[0]], s[1..]);
    }
  }

  lemma {:induction false} AbsorbAbsorbed(a: seq<nat>, b: seq<nat>, s: seq<nat>)
    ensures Absorb(a, Absorb(b, s)) == Absorb(Absorb(a, b), s)
    decreases |s|
  {
    if s != [] {
      AbsorbElements(a, b);
      AbsorbAbsorbed(a, if s[0] in b then b else b + [s[0]], s[1..]);
      if s[0] !in b {
        AbsorbConcat(a, b, [s[0]]);
      }
    }
  }

  lemma {:induction false} AbsorbConcat(a: seq<nat>, b: seq<nat>, c: seq<nat>)
    ensures Absorb(a, b + c) == Absorb(Absorb(a, b), c)
    decreases |b|
  {
    if b == [] {
      assert b + c == c;
    } else {
      assert (b + c)[1..] == b[1..] + c;
      AbsorbConcat(if b[0] in a then a else a + [b[0]], b[1..], c);
    }
  }

  lemma AbsorbFirst(x: nat, s: seq<nat>)
    ensures Absorb([], [x] + s) == Absorb([x], s)
  {
    assert ([x] + s)[1..] == s && [] + [x] == [x];
  }

  /** Merges the superclass lists of all direct superclasses, skipping interfaces
      that are listed already. */
  method GetAllSuperclasses(tree: Tree, iface: nat) returns (result: seq<nat>)
    requires WellFormed(tree) && iface < |tree|
    ensures result == FirstOccurrences(Preorder(tree, iface))
    decreases Height(tree, iface)
  {
    hide WellFormed, Preorder, Height;
    result := [iface];
    ghost var walked := [iface];
    AbsorbFirst(iface, []);
    assert [iface] + [] == [iface];
    for k := 0 to |tree[iface].superclasses|
      invariant walked == [iface] + PreorderOfSuperclasses(tree, iface, k)
      invariant result == FirstOccurrences(walked)
    {
      SuperclassIsUp(tree, iface, k);
      HeightOfUp(tree, iface, tree[iface].superclasses[k]);
      var candidates := GetAllSuperclasses(tree, tree[iface].superclasses[k]);
      ghost var more := Preorder(tree, tree[iface].superclasses[k]);
      AbsorbAbsorbed(result, [], more);
      AbsorbConcat([], walked, more);
      PreorderGrows(tree, iface, k);
      result := AddMissing(result, candidates);
      walked := walked + more;
    }
    PreorderUnfold(tree, iface);
  }

  lemma PreorderUnfold(tree: Tree, iface: nat)
    requires WellFormed(tree) && iface < |tree|
    ensures Preorder(tree, iface) == [iface] + PreorderOfSuperclasses(tree, iface, |tree[iface].superclasses|)
  {
  }

  lemma PreorderGrows(tree: Tree, iface: nat, k: nat)
    requires WellFormed(tree) && iface < |tree| && k < |tree[iface].superclasses|
    ensures tree[iface].superclasses[k] < |tree|
    ensures [iface] + PreorderOfSuperclasses(tree, iface, k) + Preorder(tree, tree[iface].superclasses[k])
         == [iface] + PreorderOfSuperclasses(tree, iface, k + 1)
  {
    hide WellFormed, Height, Preorder;
    SuperclassIsUp(tree, iface, k);
    var walked, more := PreorderOfSuperclasses(tree, iface, k), Preorder(tree, tree[iface].superclasses[k]);
    assert PreorderOfSuperclasses(tree, iface, k + 1) == walked + more;
    assert ([iface] + walked) + more == [iface] + (walked + more);
  }

  method AddMissing(list: seq<nat>, more: seq<nat>) returns (result: seq<nat>)
    ensures result == Absorb(list, more)
  {
    result := list;
    var candidates := more;
    while candidates != []
      invariant Absorb(result, candidates) == Absorb(list, more)
    {
      var thisCandidate := candidates[0];
      candidates := candidates[1..];
      var foundThis := false;
      for i := 0 to |result|
        invariant foundThis <==> thisCandidate in result[..i]
      {
        if result[i] == thisCandidate {
          foundThis := true;
        }
      }
      assert result[..|result|] == result;
      if !foundThis {
        result := result + [thisCandidate];
      }
    }
  }

  lemma {:induction false} PreorderElements(tree: Tree, iface: nat, x: nat)
    requires WellFormed(tree) && iface < |tree|
    ensures x in Preorder(tree, iface) <==> Reaches(SuperEdges(tree), iface, x)
    decreases Height(tree, iface), 1, 0
  {
    var e, m := SuperEdges(tree), |tree[iface].superclasses|;
    ReachesUnfold(e, iface, x);
    PreorderOfSuperclassesElements(tree, iface, m, x);
    if j :| 0 <= j < m && Reaches(e, tree[iface].superclasses[j], x) {
      SuperclassIsUp(tree, iface, j);
      assert (iface, tree[iface].superclasses[j]) in e;
    }
    if y :| (iface, y) in e && Reaches(e, y, x) {
      var j :| 0 <= j < m && tree[iface].superclasses[j] == y;
    }
  }

  lemma {:induction false} PreorderOfSuperclassesElements(tree: Tree, iface: nat, k: nat, x: nat)
    requires WellFormed(tree) && iface < |tree| && k <= |tree[iface].superclasses|
    ensures x in PreorderOfSuperclasses(tree, iface, k) <==>
              exists j :: 0 <= j < k && Reaches(SuperEdges(tree), tree[iface].superclasses[j], x)
    decreases Height(tree, iface), 0, k
  {
    hide WellFormed, Height, Preorder, Reaches;
    if k > 0 {
      SuperclassIsUp(tree, iface, k - 1);
      HeightOfUp(tree, iface, tree[iface].superclasses[k - 1]);
      PreorderOfSuperclassesElements(tree, iface, k - 1, x);
      PreorderElements(tree, tree[iface].superclasses[k - 1], x);
    }
  }

  /** The interface comes first, every superclass is listed, nothing else is, and
      nothing is listed twice. */
  lemma SuperclassListExact(tree: Tree, iface: nat)
    requires WellFormed(tree) && iface < |tree|
    ensures var list := FirstOccurrences(Preorder(tree, iface));
            list != [] && list[0] == iface && Distinct(list)
            && forall x :: x in list <==> Reaches(SuperEdges(tree), iface, x)
  {
    hide WellFormed, Preorder, Reaches;
    var p := Preorder(tree, iface);
    PreorderUnfold(tree, iface);
    AbsorbElements([], p);
    AbsorbElements([iface], p[1..]);
    AbsorbFirst(iface, p[1..]);
    assert [iface] + p[1..] == p;
    forall x: nat
      ensures x in p <==> Reaches(SuperEdges(tree), iface, x)
    {
      PreorderElements(tree, iface, x);
    }
  }

  ghost predicate Once(ops: seq<OpName>) {
    forall i, j :: 0 <= i < j < |ops| ==> ops[i] != ops[j]
  }

  /** The inherited operations: those of every proper superclass, in list order,
      each exactly once even when a superclass is inherited along several paths. */
  method CollectInherited(tree: Tree, iface: nat) returns (inheritedOps: seq<OpName>)
    requires WellFormed(tree) && iface < |tree|
    ensures Once(inheritedOps)
    ensures forall c: OpName :: c in inheritedOps <==> Offers(tree, iface, c) && c.0 != iface
    ensures Ascending(inheritedOps)
  {
    hide WellFormed, Once, Ascending, Preorder, FirstOccurrences, Reaches;
    var superclasses := GetAllSuperclasses(tree, iface);
    SuperclassListExact(tree, iface);
    inheritedOps := [];
    assert Once([]) && Ascending([]) by { NoOperations(); }
    for i := 0 to |superclasses|
      invariant forall c: OpName :: c in inheritedOps <==>
                  c.0 in superclasses[..i] && c.0 != iface && IsOperation(tree, c)
      invariant Once(inheritedOps) && Ascending(inheritedOps)
    {
      var s := superclasses[i];
      assert s in superclasses && s !in superclasses[..i];
      ListedInTree(tree, iface, s);
      if s != iface {
        inheritedOps := AddOperations(tree, s, inheritedOps);
      }
      assert superclasses[..i + 1] == superclasses[..i] + [s];
    }
    assert superclasses[..|superclasses|] == superclasses;
  }

  method AddOperations(tree: Tree, s: nat, before: seq<OpName>) returns (after: seq<OpName>)
    requires s < |tree| && forall c :: c in before ==> c.0 != s
    requires Once(before) && Ascending(before)
    ensures forall c: OpName :: c in after <==> c in before || (c.0 == s && IsOperation(tree, c))
    ensures Once(after) && Ascending(after)
  {
    after := before;
    for k := 0 to |tree[s].operations|
      invariant |after| == |before| + k && after[..|before|] == before
      invariant forall j :: 0 <= j < k ==> after[|before| + j] == (s, j)
    {
      after := after + [(s, k)];
    }
    OwnOperations(tree, s, before, after);
  }

  /** Operations of one interface keep their order. */
  ghost predicate Ascending(ops: seq<OpName>) {
    forall i, j :: 0 <= i < j < |ops| && ops[i].0 == ops[j].0 ==> ops[i].1 < ops[j].1
  }

  lemma NoOperations()
    ensures Once([]) && Ascending([])
  {
  }

  lemma ListedInTree(tree: Tree, iface: nat, s: nat)
    requires iface < |tree| && Reaches(SuperEdges(tree), iface, s)
    ensures s < |tree|
  {
    if s != iface {
      var m := LastEdge(SuperEdges(tree), iface, s);
    }
  }

  lemma OwnOperations(tree: Tree, s: nat, before: seq<OpName>, after: seq<OpName>)
    requires s < |tree| && forall c :: c in before ==> c.0 != s
    requires |after| == |before| + |tree[s].operations| && after[..|before|] == before
    requires forall j :: 0 <= j < |tree[s].operations| ==> after[|before| + j] == (s, j)
    ensures forall c: OpName :: c in after <==> c in before || (c.0 == s && IsOperation(tree, c))
    ensures Once(before) && Ascending(before) ==> Once(after) && Ascending(after)
  {
    forall c: OpName | c.0 == s && IsOperation(tree, c)
      ensures c in after
    {
      assert after[|before| + c.1] == c;
    }
    forall i | 0 <= i < |after|
      ensures if i < |before| then after[i] == before[i] && before[i] in before else after[i] == (s, i - |before|)
    {
      assert i >= |before| ==> after[|before| + (i - |before|)] == (s, i - |before|);
    }
    forall c | c in before
      ensures c in after
    {
      var i :| 0 <= i < |before| && before[i] == c;
      assert after[i] == c;
    }
  }
}
