/** Ordering of the parameters of an operation: a parameter whose length is held
    by another one depends on it. Parameters are named by numbers. */
module Dependencies {
  import opened Graphs
  import opened IdRanges
  import opened Wrappers

  datatype Dependency = Dependency(to: nat, done: bool)

  datatype ParamDep = ParamDep(param: nat, dependencies: seq<Dependency>, done: bool)

  ghost predicate Registered(list: seq<ParamDep>, param: nat) {
    exists i :: 0 <= i < |list| && list[i].param == param
  }

  ghost predicate ParamsDistinct(list: seq<ParamDep>) {
    forall i, j :: 0 <= i < j < |list| ==> list[i].param != list[j].param
  }

  ghost predicate Depends(list: seq<ParamDep>, param: nat, to: nat) {
    exists i, j :: 0 <= i < |list| && list[i].param == param
      && 0 <= j < |list[i].dependencies| && list[i].dependencies[j].to == to
  }

  ghost function Bound(list: seq<ParamDep>): nat {
    if list == [] then 0
    else var b := Bound(list[1..]);
         var c := BoundOf(list[0].dependencies);
         var d := if list[0].param < c then c else list[0].param + 1;
         if b < d then d else b
  }

  ghost function BoundOf(deps: seq<Dependency>): nat {
    if deps == [] then 0
    else var b := BoundOf(deps[1..]); if deps[0].to < b then b else deps[0].to + 1
  }

  lemma {:induction false} BoundOfHolds(deps: seq<Dependency>, j: nat)
    requires j < |deps|
    ensures deps[j].to < BoundOf(deps)
    decreases |deps|
  {
    if j > 0 {
      BoundOfHolds(deps[1..], j - 1);
    }
  }

  lemma {:induction false} BoundHolds(list: seq<ParamDep>, i: nat)
    requires i < |list|
    ensures list[i].param < Bound(list)
    ensures forall j :: 0 <= j < |list[i].dependencies| ==> list[i].dependencies[j].to < Bound(list)
    decreases |list|
  {
    if i > 0 {
      BoundHolds(list[1..], i - 1);
      assert list[1..][i - 1] == list[i];
    } else {
      forall j | 0 <= j < |list[0].dependencies|
        ensures list[0].dependencies[j].to < Bound(list)
      {
        BoundOfHolds(list[0].dependencies, j);
      }
    }
  }

  /** From each parameter to those that depend on it. */
  ghost function Arrows(list: seq<ParamDep>): (e: Edges)
    ensures forall a: nat, b: nat :: (a, b) in e <==> Depends(list, b, a)
  {
    forall a: nat, b: nat | Depends(list, b, a)
      ensures a in Graphs.Below(Bound(list)) && b in Graphs.Below(Bound(list))
    {
      var i, j :| 0 <= i < |list| && list[i].param == b
        && 0 <= j < |list[i].dependencies| && list[i].dependencies[j].to == a;
      BoundHolds(list, i);
    }
    set a, b | a in Graphs.Below(Bound(list)) && b in Graphs.Below(Bound(list)) && Depends(list, b, a) :: (a, b)
  }

  /** Every dependency is on a registered parameter, and they form no circle. */
  ghost predicate Resolvable(list: seq<ParamDep>) {
    (forall p: nat, d: nat :: Depends(list, p, d) ==> Registered(list, d)) && Acyclic(Arrows(list))
  }

  ghost predicate Fresh(list: seq<ParamDep>) {
    forall i :: 0 <= i < |list| ==>
      !list[i].done && forall j :: 0 <= j < |list[i].dependencies| ==> !list[i].dependencies[j].done
  }

  // ---------------------------------------------------------------- resolving

  function Resolved(deps: seq<Dependency>, param: nat): (r: seq<Dependency>)
    ensures |r| == |deps|
  {
    seq(|deps|, j requires 0 <= j < |deps| => if deps[j].to == param then deps[j].(done := true) else deps[j])
  }

  predicate HasUnresolved(entry: ParamDep) {
    exists j :: 0 <= j < |entry.dependencies| && !entry.dependencies[j].done
  }

  /** State of the list once the parameters in `order` have their priorities. */
  ghost predicate Reached(list: seq<ParamDep>, now: seq<ParamDep>, order: seq<nat>) {
    |now| == |list| &&
    (forall i :: 0 <= i < |list| ==> SameEntry(list[i], now[i]) && (now[i].done <==> now[i].param in order)) &&
    (forall i, j :: 0 <= i < |now| && !now[i].done && 0 <= j < |now[i].dependencies| ==>
       (now[i].dependencies[j].done <==> now[i].dependencies[j].to in order))
  }

  ghost predicate SameEntry(a: ParamDep, b: ParamDep) {
    a.param == b.param && |a.dependencies| == |b.dependencies| &&
    forall j :: 0 <= j < |a.dependencies| ==> a.dependencies[j].to == b.dependencies[j].to
  }

  /** `order` lists registered parameters once, each after all it depends on. */
  ghost predicate Sorted(list: seq<ParamDep>, order: seq<nat>) {
    (forall k :: 0 <= k < |order| ==> Registered(list, order[k]) && order[k] !in order[..k]) &&
    (forall k, d :: 0 <= k < |order| && Depends(list, order[k], d) ==> d in order[..k])
  }

  ghost predicate Prioritised(priority: map<nat, nat>, before: map<nat, nat>, order: seq<nat>) {
    (forall k :: 0 <= k < |order| ==> order[k] in priority && priority[order[k]] == k + 1) &&
    (forall p :: p !in order ==> (p in priority <==> p in before) && (p in before ==> priority[p] == before[p]))
  }

  class DependencyList {
    var paramDeps: seq<ParamDep>
    /** The priority field of each parameter; a parameter not listed has priority 0. */
    var priority: map<nat, nat>

    constructor ()
      ensures paramDeps == [] && priority == map[]
    {
      paramDeps, priority := [], map[];
    }

    method RegisterParam(param: nat)
      modifies this
      ensures paramDeps == [ParamDep(param, [], false)] + old(paramDeps) && priority == old(priority)
    {
      paramDeps := [ParamDep(param, [], false)] + paramDeps;
    }

    /** Enters the dependency in front, unless it is there already. The search does
        not stop after entering it; it finds the new entry and stops then. */
    method RegisterDependency(param: nat, dependency: nat)
      requires Registered(paramDeps, param)
      modifies this
      ensures priority == old(priority)
      ensures exists i :: 0 <= i < |old(paramDeps)| && old(paramDeps)[i].param == param
                && (forall k :: 0 <= k < i ==> old(paramDeps)[k].param != param)
                && paramDeps == old(paramDeps)[i := WithDependency(old(paramDeps)[i], dependency)]
    {
      var i := 0;
      ghost var entered := false;
      while i < |paramDeps|
        invariant 0 <= i <= |paramDeps| == |old(paramDeps)| && priority == old(priority)
        invariant forall k :: 0 <= k < i ==> old(paramDeps)[k].param != param
        invariant if entered then i < |paramDeps| && old(paramDeps)[i].param == param
                  && paramDeps == old(paramDeps)[i := WithDependency(old(paramDeps)[i], dependency)]
                  else paramDeps == old(paramDeps)
        decreases |paramDeps| - i, !entered
      {
        if paramDeps[i].param == param {
          var deps := paramDeps[i].dependencies;
          WithDependencyHas(old(paramDeps)[i], dependency);
          assert entered ==> HasDependency(deps, dependency);
          for j := 0 to |deps|
            invariant forall l :: 0 <= l < j ==> deps[l].to != dependency
          {
            if deps[j].to == dependency {
              assert HasDependency(deps, dependency);
              return;
            }
          }
          paramDeps := paramDeps[i := paramDeps[i].(dependencies := [Dependency(dependency, false)] + deps)];
          entered := true;
        } else {
          i := i + 1;
        }
      }
      assert false;
    }

    /** Marks the dependencies on a parameter as done in all entries still open. */
    method RemoveAllDependenciesTo(param: nat)
      modifies this`paramDeps
      ensures |paramDeps| == |old(paramDeps)|
      ensures forall i :: 0 <= i < |paramDeps| ==> paramDeps[i] == Released(old(paramDeps)[i], param)
    {
      for i := 0 to |paramDeps|
        invariant |paramDeps| == |old(paramDeps)|
        invariant forall k :: 0 <= k < i ==> paramDeps[k] == Released(old(paramDeps)[k], param)
        invariant forall k :: i <= k < |paramDeps| ==> paramDeps[k] == old(paramDeps)[k]
      {
        if !paramDeps[i].done {
          var deps := paramDeps[i].dependencies;
          var all := deps;
          for j := 0 to |deps|
            invariant |all| == |deps|
            invariant forall l :: 0 <= l < j ==> all[l] == Resolved(deps, param)[l]
            invariant forall l :: j <= l < |deps| ==> all[l] == deps[l]
          {
            if all[j].to == param {
              all := all[j := all[j].(done := true)];
            }
          }
          assert all == Resolved(deps, param);
          paramDeps := paramDeps[i := paramDeps[i].(dependencies := all)];
        }
      }
    }

    method MarkDone(i: nat)
      requires i < |paramDeps|
      modifies this`paramDeps
      ensures paramDeps == old(paramDeps)[i := old(paramDeps)[i].(done := true)]
    {
      paramDeps := paramDeps[i := paramDeps[i].(done := true)];
    }

    /** One pass over the entries. */
    method Pass(ghost list: seq<ParamDep>, ghost before: map<nat, nat>, ghost order: seq<nat>, prio: nat)
      returns (next: nat, moreWorkToDo: bool, madeProgress: bool, ghost longer: seq<nat>)
      requires ParamsDistinct(list) && Reached(list, paramDeps, order) && Sorted(list, order)
      requires Prioritised(priority, before, order) && prio == |order|
      modifies this
      ensures Reached(list, paramDeps, longer) && Sorted(list, longer)
      ensures Prioritised(priority, before, longer) && next == |longer|
      ensures madeProgress <==> |order| < |longer|
      ensures !madeProgress ==> longer == order
      ensures !moreWorkToDo ==> forall i :: 0 <= i < |list| ==> list[i].param in longer
      ensures moreWorkToDo && !madeProgress ==> Stuck(paramDeps)
    {
      hide Reached, Sorted, Prioritised, ParamsDistinct, HasUnresolved;
      next, moreWorkToDo, madeProgress, longer := prio, false, false, order;
      ReachedLength(list, paramDeps, order);
      for i := 0 to |paramDeps|
        invariant |paramDeps| == |list|
        invariant Reached(list, paramDeps, longer) && Sorted(list, longer)
        invariant Prioritised(priority, before, longer) && next == |longer|
        invariant if madeProgress then |order| < |longer| else longer == order
        invariant !moreWorkToDo ==> forall k :: 0 <= k < i ==> list[k].param in longer
        invariant moreWorkToDo && !madeProgress ==> exists k :: 0 <= k < i && !paramDeps[k].done
        invariant !madeProgress ==> forall k :: 0 <= k < i && !paramDeps[k].done ==> HasUnresolved(paramDeps[k])
      {
        ReachedEntry(list, paramDeps, longer, i);
        if !paramDeps[i].done && !HasUnresolved(paramDeps[i]) {
          ghost var now, was := paramDeps, priority;
          var param := paramDeps[i].param;
          RemoveAllDependenciesTo(param);
          next := next + 1;
          priority := priority[param := next];
          MarkDone(i);
          StepReached(list, now, longer, i, paramDeps);
          StepPriority(was, before, longer, param, priority);
          longer := longer + [param];
          madeProgress := true;
          ReachedEntry(list, paramDeps, longer, i);
        }
        if !paramDeps[i].done {
          moreWorkToDo := true;
        }
      }
    }

    /** Assigns the priorities 1, 2, ... so that each parameter comes after all it
        depends on. Fails exactly when that is impossible for some parameter. */
    method Commit() returns (result: bool, ghost order: seq<nat>)
      requires ParamsDistinct(paramDeps) && Fresh(paramDeps)
      modifies this
      ensures result <==> Resolvable(old(paramDeps))
      ensures Sorted(old(paramDeps), order) && Prioritised(priority, old(priority), order)
      ensures result <==> forall i :: 0 <= i < |old(paramDeps)| ==> old(paramDeps)[i].param in order
    {
      hide Reached, Sorted, Prioritised, ParamsDistinct, Resolvable, Stuck;
      ghost var list := paramDeps;
      var prio, moreWorkToDo, madeProgress := 0, true, true;
      order := [];
      NothingReached(list, priority);
      while moreWorkToDo
        invariant Reached(list, paramDeps, order) && Sorted(list, order)
        invariant Prioritised(priority, old(priority), order) && prio == |order| <= |list|
        invariant !moreWorkToDo ==> forall i :: 0 <= i < |list| ==> list[i].param in order
        decreases |list| - |order|, moreWorkToDo
      {
        prio, moreWorkToDo, madeProgress, order := Pass(list, old(priority), order, prio);
        SortedBound(list, order);
        if moreWorkToDo && !madeProgress {
          StuckIsUnresolvable(list, paramDeps, order);
          return false, order;
        }
      }
      CompleteIsResolvable(list, order);
      return true, order;
    }
  }

  /** Somebody is still open, and everybody open waits for something. */
  ghost predicate Stuck(now: seq<ParamDep>) {
    (exists k :: 0 <= k < |now| && !now[k].done) &&
    (forall k :: 0 <= k < |now| && !now[k].done ==> HasUnresolved(now[k]))
  }

  lemma ReachedLength(list: seq<ParamDep>, now: seq<ParamDep>, order: seq<nat>)
    requires Reached(list, now, order)
    ensures |list| == |now|
  {
  }

  lemma ReachedEntry(list: seq<ParamDep>, now: seq<ParamDep>, order: seq<nat>, i: nat)
    requires Reached(list, now, order) && i < |list|
    ensures now[i].param == list[i].param && (now[i].done <==> list[i].param in order)
  {
    assert SameEntry(list[i], now[i]);
  }

  lemma StepPriority(priority: map<nat, nat>, before: map<nat, nat>, order: seq<nat>, param: nat, after: map<nat, nat>)
    requires Prioritised(priority, before, order) && param !in order && after == priority[param := |order| + 1]
    ensures Prioritised(after, before, order + [param])
  {
    forall k | 0 <= k < |order| ensures order[k] != param {
      assert order[k] in order;
    }
  }

  lemma StepReached(list: seq<ParamDep>, now: seq<ParamDep>, order: seq<nat>, i: nat, after: seq<ParamDep>)
    requires ParamsDistinct(list) && Reached(list, now, order) && Sorted(list, order) && i < |list|
    requires !now[i].done && !HasUnresolved(now[i])
    requires |after| == |now|
    requires forall k :: 0 <= k < |now| ==>
               after[k] == if k == i then Released(now[k], now[i].param).(done := true)
                 else Released(now[k], now[i].param)
    ensures list[i].param == now[i].param && now[i].param !in order
    ensures Reached(list, after, order + [now[i].param]) && Sorted(list, order + [now[i].param])
  {
    hide Reached, Sorted, ParamsDistinct;
    ReachedEntry(list, now, order, i);
    StepReaches(list, now, order, i, after);
    OpenWasLast(list, now, order, i);
    SortedAppend(list, order, now[i].param);
  }

  lemma StepReaches(list: seq<ParamDep>, now: seq<ParamDep>, order: seq<nat>, i: nat, after: seq<ParamDep>)
    requires ParamsDistinct(list) && Reached(list, now, order) && i < |list| && !now[i].done
    requires |after| == |now|
    requires forall k :: 0 <= k < |now| ==>
               after[k] == if k == i then Released(now[k], now[i].param).(done := true)
                 else Released(now[k], now[i].param)
    ensures Reached(list, after, order + [now[i].param])
  {
    var next := order + [now[i].param];
    forall k | 0 <= k < |list|
      ensures SameEntry(list[k], after[k]) && (after[k].done <==> after[k].param in next)
    {
      assert SameEntry(list[k], now[k]) && SameEntry(list[i], now[i]);
    }
  }

  /** An open entry that waits for nothing depends only on what has been resolved. */
  lemma OpenWasLast(list: seq<ParamDep>, now: seq<ParamDep>, order: seq<nat>, i: nat)
    requires ParamsDistinct(list) && Reached(list, now, order) && i < |list|
    requires !now[i].done && !HasUnresolved(now[i])
    ensures now[i].param !in order && Registered(list, now[i].param)
    ensures forall d :: Depends(list, now[i].param, d) ==> d in order
  {
    assert SameEntry(list[i], now[i]);
    forall d | Depends(list, now[i].param, d)
      ensures d in order
    {
      var a, j :| 0 <= a < |list| && list[a].param == now[i].param && 0 <= j < |list[a].dependencies|
        && list[a].dependencies[j].to == d;
      assert a == i && now[i].dependencies[j].done;
    }
  }

  lemma SortedAppend(list: seq<ParamDep>, order: seq<nat>, param: nat)
    requires Sorted(list, order) && param !in order && Registered(list, param)
    requires forall d :: Depends(list, param, d) ==> d in order
    ensures Sorted(list, order + [param])
  {
    hide Depends, Registered;
    var next := order + [param];
    forall k | 0 <= k < |next|
      ensures next[..k] == order[..k] && (k < |order| ==> next[k] == order[k])
    {
    }
    assert order[..|order|] == order;
  }

  lemma NothingReached(list: seq<ParamDep>, priority: map<nat, nat>)
    requires Fresh(list)
    ensures Reached(list, list, []) && Sorted(list, []) && Prioritised(priority, priority, [])
  {
  }

  lemma {:induction false} SortedBound(list: seq<ParamDep>, order: seq<nat>)
    requires Sorted(list, order)
    ensures |order| <= |list|
  {
    var params := set i | 0 <= i < |list| :: list[i].param;
    ParamCount(list);
    SortedDistinct(list, order);
    if |order| > |list| {
      var a, b := Pigeonhole(order, params);
      assert false;
    }
  }

  lemma SortedDistinct(list: seq<ParamDep>, order: seq<nat>)
    requires Sorted(list, order)
    ensures Distinct(order)
  {
    forall a, b | 0 <= a < b < |order|
      ensures order[a] != order[b]
    {
      assert order[..b][a] == order[a];
    }
  }

  lemma {:induction false} ParamCount(list: seq<ParamDep>)
    ensures |set i | 0 <= i < |list| :: list[i].param| <= |list|
    decreases |list|
  {
    var params := set i | 0 <= i < |list| :: list[i].param;
    if list == [] {
      assert params == {};
    } else {
      var rest := set i | 0 <= i < |list[1..]| :: list[1..][i].param;
      ParamCount(list[1..]);
      forall p | p in params
        ensures p in rest + {list[0].param}
      {
        var i :| 0 <= i < |list| && list[i].param == p;
        if i > 0 {
          assert list[1..][i - 1].param == p;
        }
      }
      SubsetSize(params, rest + {list[0].param});
    }
  }

  /** An order that lists everybody after all it depends on rules out circles. */
  lemma CompleteIsResolvable(list: seq<ParamDep>, order: seq<nat>)
    requires Sorted(list, order) && forall i :: 0 <= i < |list| ==> list[i].param in order
    ensures Resolvable(list)
  {
    var rank := (p: nat) => if p in order then Position(order, p) else 0;
    forall p: nat, d: nat | Depends(list, p, d)
      ensures d in order && p in order && rank(d) < rank(p)
    {
      var i, j :| 0 <= i < |list| && list[i].param == p && 0 <= j < |list[i].dependencies|
        && list[i].dependencies[j].to == d;
      assert list[i].param in order;
      var k := Position(order, p);
      assert Depends(list, order[k], d);
      assert d in order[..k];
      assert rank(d) == Position(order, d) && d !in order[..Position(order, d)];
    }
    forall p: nat, d: nat | Depends(list, p, d)
      ensures Registered(list, d)
    {
      assert d in order;
      assert Registered(list, order[Position(order, d)]);
    }
    RankedIsAcyclic(Arrows(list), rank);
  }

  lemma StuckIsUnresolvable(list: seq<ParamDep>, now: seq<ParamDep>, order: seq<nat>)
    requires Reached(list, now, order) && Stuck(now)
    ensures !Resolvable(list)
    ensures exists i :: 0 <= i < |list| && list[i].param !in order
  {
    var k :| 0 <= k < |now| && !now[k].done;
    ReachedEntry(list, now, order, k);
    if Resolvable(list) {
      var i := ReadyEntry(list, now, order);
    }
  }

  /** As long as somebody is open in a resolvable list, somebody open waits for nobody. */
  lemma ReadyEntry(list: seq<ParamDep>, now: seq<ParamDep>, order: seq<nat>) returns (i: nat)
    requires Reached(list, now, order) && Resolvable(list)
    requires exists k :: 0 <= k < |now| && !now[k].done
    ensures i < |now| && !now[i].done && !HasUnresolved(now[i])
  {
    var k :| 0 <= k < |now| && !now[k].done;
    var open := set l | 0 <= l < |now| && !now[l].done :: now[l].param;
    assert now[k].param in open;
    var m := MinimalNode(Arrows(list), open);
    i :| 0 <= i < |now| && !now[i].done && now[i].param == m;
    assert SameEntry(list[i], now[i]);
    forall j | 0 <= j < |now[i].dependencies|
      ensures now[i].dependencies[j].done
    {
      var d := now[i].dependencies[j].to;
      assert list[i].dependencies[j].to == d;
      assert Depends(list, m, d);
      assert (d, m) in Arrows(list);
      var l :| 0 <= l < |list| && list[l].param == d;
      ReachedEntry(list, now, order, l);
      var entry := now[l];
      assert entry.done || entry.param in open;
    }
  }

  predicate HasDependency(deps: seq<Dependency>, to: nat) {
    exists j :: 0 <= j < |deps| && deps[j].to == to
  }

  function WithDependency(entry: ParamDep, to: nat): ParamDep {
    if HasDependency(entry.dependencies, to) then entry
    else entry.(dependencies := [Dependency(to, false)] + entry.dependencies)
  }

  lemma WithDependencyHas(entry: ParamDep, to: nat)
    ensures HasDependency(WithDependency(entry, to).dependencies, to)
  {
    var deps := WithDependency(entry, to).dependencies;
    assert !HasDependency(entry.dependencies, to) ==> deps[0].to == to;
  }

  function Released(entry: ParamDep, param: nat): ParamDep {
    if entry.done then entry else entry.(dependencies := Resolved(entry.dependencies, param))
  }

  // ---------------------------------------------------------------- sorting by priority

  function PriorityOf(priority: map<nat, nat>, p: nat): nat {
    if p in priority then priority[p] else 0
  }

  /** The parameters with one priority, in their given order. */
  function WithPriority(s: seq<nat>, priority: map<nat, nat>, v: nat): seq<nat> {
    if s == [] then []
    else
      var rest := WithPriority(s[..|s| - 1], priority, v);
      if PriorityOf(priority, s[|s| - 1]) == v then rest + [s[|s| - 1]] else rest
  }

  function Buckets(s: seq<nat>, priority: map<nat, nat>, n: nat): seq<nat> {
    if n == 0 then [] else Buckets(s, priority, n - 1) + WithPriority(s, priority, n - 1)
  }

  lemma {:induction false} WithPriorityCount(s: seq<nat>, priority: map<nat, nat>, v: nat, x: nat)
    ensures multiset(WithPriority(s, priority, v))[x] == if PriorityOf(priority, x) == v then multiset(s)[x] else 0
    decreases |s|
  {
    if s != [] {
      WithPriorityCount(s[..|s| - 1], priority, v, x);
      assert s == s[..|s| - 1] + [s[|s| - 1]];
    }
  }

  lemma {:induction false} BucketsCount(s: seq<nat>, priority: map<nat, nat>, n: nat, x: nat)
    ensures multiset(Buckets(s, priority, n))[x] == if PriorityOf(priority, x) < n then multiset(s)[x] else 0
    decreases n
  {
    if n > 0 {
      BucketsCount(s, priority, n - 1, x);
      WithPriorityCount(s, priority, n - 1, x);
    }
  }

  lemma {:induction false} WithPriorityMembers(s: seq<nat>, priority: map<nat, nat>, v: nat)
    ensures forall p :: p in WithPriority(s, priority, v) ==> PriorityOf(priority, p) == v
    decreases |s|
  {
    if s != [] {
      WithPriorityMembers(s[..|s| - 1], priority, v);
    }
  }

  lemma {:induction false} BucketsAscend(s: seq<nat>, priority: map<nat, nat>, n: nat)
    ensures forall p :: p in Buckets(s, priority, n) ==> PriorityOf(priority, p) < n
    ensures Ascending(Buckets(s, priority, n), priority)
    decreases n
  {
    if n > 0 {
      hide WithPriority, PriorityOf;
      BucketsAscend(s, priority, n - 1);
      WithPriorityMembers(s, priority, n - 1);
      AscendingConcat(Buckets(s, priority, n - 1), WithPriority(s, priority, n - 1), priority, n - 1);
    }
  }

  lemma AscendingConcat(a: seq<nat>, b: seq<nat>, priority: map<nat, nat>, v: nat)
    requires Ascending(a, priority)
    requires forall p :: p in a ==> PriorityOf(priority, p) < v
    requires forall p :: p in b ==> PriorityOf(priority, p) == v
    ensures Ascending(a + b, priority)
  {
    forall i, j | 0 <= i < j < |a + b|
      ensures PriorityOf(priority, (a + b)[i]) <= PriorityOf(priority, (a + b)[j])
    {
      assert i < |a| ==> a[i] in a;
      assert i >= |a| ==> b[i - |a|] in b;
      assert j >= |a| ==> b[j - |a|] in b;
    }
  }

  method MaxPriority(parameters: seq<nat>, priority: map<nat, nat>) returns (maxPrio: nat)
    ensures forall p :: p in parameters ==> PriorityOf(priority, p) <= maxPrio
  {
    maxPrio := 0;
    for k := 0 to |parameters|
      invariant forall j :: 0 <= j < k ==> PriorityOf(priority, parameters[j]) <= maxPrio
    {
      if PriorityOf(priority, parameters[k]) > maxPrio {
        maxPrio := PriorityOf(priority, parameters[k]);
      }
    }
  }

  method AddBucket(before: seq<nat>, parameters: seq<nat>, priority: map<nat, nat>, i: nat) returns (sorted: seq<nat>)
    ensures sorted == before + WithPriority(parameters, priority, i)
  {
    sorted := before;
    for k := 0 to |parameters|
      invariant sorted == before + WithPriority(parameters[..k], priority, i)
    {
      assert parameters[..k + 1][..k] == parameters[..k];
      if PriorityOf(priority, parameters[k]) == i {
        sorted := sorted + [parameters[k]];
      }
    }
    assert parameters[..|parameters|] == parameters;
  }

  ghost predicate Ascending(s: seq<nat>, priority: map<nat, nat>) {
    forall i, j :: 0 <= i < j < |s| ==> PriorityOf(priority, s[i]) <= PriorityOf(priority, s[j])
  }

  /** The parameter list rearranged by ascending priority; parameters of equal
      priority keep their order. */
  method SortParams(parameters: seq<nat>, priority: map<nat, nat>) returns (sorted: seq<nat>)
    ensures multiset(sorted) == multiset(parameters) && Ascending(sorted, priority)
    ensures forall v: nat :: WithPriority(sorted, priority, v) == WithPriority(parameters, priority, v)
  {
    hide WithPriority, PriorityOf;
    var maxPrio := MaxPriority(parameters, priority);
    sorted := [];
    for i := 0 to maxPrio + 1
      invariant sorted == Buckets(parameters, priority, i)
    {
      sorted := AddBucket(sorted, parameters, priority, i);
    }
    BucketsAscend(parameters, priority, maxPrio + 1);
    BucketsPermute(parameters, priority, maxPrio + 1);
    BucketsStable(parameters, priority, maxPrio + 1);
  }

  lemma BucketsPermute(s: seq<nat>, priority: map<nat, nat>, n: nat)
    requires forall p :: p in s ==> PriorityOf(priority, p) < n
    ensures multiset(Buckets(s, priority, n)) == multiset(s)
  {
    forall x: nat
      ensures multiset(Buckets(s, priority, n))[x] == multiset(s)[x]
    {
      BucketsCount(s, priority, n, x);
      assert x in multiset(s) ==> x in s;
    }
  }

  lemma {:induction false} WithPriorityConcat(s: seq<nat>, t: seq<nat>, priority: map<nat, nat>, v: nat)
    ensures WithPriority(s + t, priority, v) == WithPriority(s, priority, v) + WithPriority(t, priority, v)
    decreases |t|
  {
    if t == [] {
      assert s + t == s;
    } else {
      WithPriorityConcat(s, t[..|t| - 1], priority, v);
      assert (s + t)[..|s + t| - 1] == s + t[..|t| - 1];
    }
  }

  lemma {:induction false} WithPriorityTwice(s: seq<nat>, priority: map<nat, nat>, v: nat, w: nat)
    ensures WithPriority(WithPriority(s, priority, v), priority, w)
            == if v == w then WithPriority(s, priority, w) else []
    decreases |s|
  {
    if s != [] {
      var last := s[|s| - 1];
      WithPriorityTwice(s[..|s| - 1], priority, v, w);
      if PriorityOf(priority, last) == v {
        WithPriorityConcat(WithPriority(s[..|s| - 1], priority, v), [last], priority, w);
        assert [last][..0] == [];
        assert WithPriority([last], priority, w) == if PriorityOf(priority, last) == w then [last] else [];
      }
    }
  }

  lemma {:induction false} BucketsWithPriority(s: seq<nat>, priority: map<nat, nat>, n: nat, v: nat)
    ensures WithPriority(Buckets(s, priority, n), priority, v) == if v < n then WithPriority(s, priority, v) else []
    decreases n
  {
    hide WithPriority, PriorityOf;
    if n == 0 {
      NoneWithPriority([], priority, v);
    } else {
      BucketsWithPriority(s, priority, n - 1, v);
      WithPriorityConcat(Buckets(s, priority, n - 1), WithPriority(s, priority, n - 1), priority, v);
      WithPriorityTwice(s, priority, n - 1, v);
    }
  }

  lemma {:induction false} NoneWithPriority(s: seq<nat>, priority: map<nat, nat>, v: nat)
    requires forall p :: p in s ==> PriorityOf(priority, p) != v
    ensures WithPriority(s, priority, v) == []
    decreases |s|
  {
    if s != [] {
      NoneWithPriority(s[..|s| - 1], priority, v);
    }
  }

  lemma BucketsStable(s: seq<nat>, priority: map<nat, nat>, n: nat)
    requires forall p :: p in s ==> PriorityOf(priority, p) < n
    ensures forall v: nat :: WithPriority(Buckets(s, priority, n), priority, v) == WithPriority(s, priority, v)
  {
    forall v: nat
      ensures WithPriority(Buckets(s, priority, n), priority, v) == WithPriority(s, priority, v)
    {
      BucketsWithPriority(s, priority, n, v);
      if v >= n {
        NoneWithPriority(s, priority, v);
      }
    }
  }

  // ---------------------------------------------------------------- one operation

  function EntryOf(p: nat, lengthOf: map<nat, nat>): ParamDep {
    ParamDep(p, if p in lengthOf then [Dependency(lengthOf[p], false)] else [], false)
  }

  /** The list after all parameters have registered themselves, latest first. */
  ghost function Entries(parameters: seq<nat>, lengthOf: map<nat, nat>): (list: seq<ParamDep>)
    ensures |list| == |parameters|
    ensures forall k :: 0 <= k < |list| ==> list[k] == EntryOf(parameters[|list| - 1 - k], lengthOf)
  {
    if parameters == [] then []
    else [EntryOf(parameters[|parameters| - 1], lengthOf)] + Entries(parameters[..|parameters| - 1], lengthOf)
  }

  /** From each length parameter to the parameters it measures. */
  ghost function LengthEdges(parameters: seq<nat>, lengthOf: map<nat, nat>): Edges {
    set p | p in parameters && p in lengthOf :: (lengthOf[p], p)
  }

  lemma EntriesDepend(parameters: seq<nat>, lengthOf: map<nat, nat>, p: nat, d: nat)
    ensures Depends(Entries(parameters, lengthOf), p, d) <==> p in parameters && p in lengthOf && lengthOf[p] == d
  {
    hide Entries;
    var list := Entries(parameters, lengthOf);
    if p in parameters && p in lengthOf && lengthOf[p] == d {
      var k :| 0 <= k < |parameters| && parameters[k] == p;
      var i := |list| - 1 - k;
      assert list[i] == EntryOf(parameters[k], lengthOf);
      assert list[i].param == p && list[i].dependencies[0].to == d;
    }
    if Depends(list, p, d) {
      var i, j :| 0 <= i < |list| && list[i].param == p && 0 <= j < |list[i].dependencies|
        && list[i].dependencies[j].to == d;
      var k := |list| - 1 - i;
      assert list[i] == EntryOf(parameters[k], lengthOf) && parameters[k] in parameters;
    }
  }

  lemma EntriesResolvable(parameters: seq<nat>, lengthOf: map<nat, nat>)
    requires forall p :: p in parameters && p in lengthOf ==> lengthOf[p] in parameters
    ensures Resolvable(Entries(parameters, lengthOf)) <==> Acyclic(LengthEdges(parameters, lengthOf))
  {
    hide Entries, LengthEdges, Depends, Acyclic, EntryOf;
    var list := Entries(parameters, lengthOf);
    forall a: nat, b: nat
      ensures (a, b) in Arrows(list) <==> (a, b) in LengthEdges(parameters, lengthOf)
    {
      EntriesDepend(parameters, lengthOf, b, a);
      LengthEdge(parameters, lengthOf, a, b);
    }
    SameEdges(Arrows(list), LengthEdges(parameters, lengthOf));
    forall p: nat, d: nat | Depends(list, p, d)
      ensures Registered(list, d)
    {
      EntriesDepend(parameters, lengthOf, p, d);
      EntriesRegistered(parameters, lengthOf, d);
    }
  }

  lemma SameEdges(e: Edges, f: Edges)
    requires forall a: nat, b: nat :: (a, b) in e <==> (a, b) in f
    ensures e == f
  {
    forall x | x in e || x in f
      ensures x in e && x in f
    {
      assert x == (x.0, x.1);
    }
  }

  lemma LengthEdge(parameters: seq<nat>, lengthOf: map<nat, nat>, a: nat, b: nat)
    ensures (a, b) in LengthEdges(parameters, lengthOf) <==> b in parameters && b in lengthOf && lengthOf[b] == a
  {
  }

  lemma EntriesRegistered(parameters: seq<nat>, lengthOf: map<nat, nat>, p: nat)
    requires p in parameters
    ensures Registered(Entries(parameters, lengthOf), p)
  {
    var list := Entries(parameters, lengthOf);
    var k :| 0 <= k < |parameters| && parameters[k] == p;
    assert list[|list| - 1 - k].param == p;
  }

  /** Each length parameter precedes the parameters it measures. */
  ghost predicate LengthsComeFirst(sorted: seq<nat>, lengthOf: map<nat, nat>) {
    forall i, j | 0 <= i < |sorted| && 0 <= j < |sorted| && sorted[j] in lengthOf
      && sorted[i] == lengthOf[sorted[j]] :: i < j
  }

  /** Registers the parameters of an operation, resolves their dependencies and
      sorts them. `ok` is false when the source reports a circular dependency. The
      marshalling pass walks the list from its end, so it meets each array before
      the parameter that holds its length. */
  method PrepareOperation(parameters: seq<nat>, lengthOf: map<nat, nat>) returns (ok: bool, sortedParams: seq<nat>)
    requires Distinct(parameters)
    requires forall p :: p in parameters && p in lengthOf ==> lengthOf[p] in parameters
    ensures multiset(sortedParams) == multiset(parameters)
    ensures ok <==> Acyclic(LengthEdges(parameters, lengthOf))
    ensures ok ==> LengthsComeFirst(sortedParams, lengthOf)
  {
    hide Acyclic, Resolvable, Sorted, Prioritised, LengthsComeFirst, Ascending;
    var depList := new DependencyList();
    RegisterAll(depList, parameters, lengthOf);
    EntriesResolvable(parameters, lengthOf);
    EntriesDistinct(parameters, lengthOf);
    ghost var order;
    ok, order := depList.Commit();
    sortedParams := SortParams(parameters, depList.priority);
    if ok {
      EntriesListed(parameters, lengthOf, order);
      LengthsFirst(parameters, lengthOf, order, depList.priority, sortedParams);
    }
  }

  method RegisterAll(depList: DependencyList, parameters: seq<nat>, lengthOf: map<nat, nat>)
    requires depList.paramDeps == []
    modifies depList
    ensures depList.paramDeps == Entries(parameters, lengthOf) && depList.priority == old(depList.priority)
  {
    for k := 0 to |parameters|
      invariant depList.paramDeps == Entries(parameters[..k], lengthOf) && depList.priority == old(depList.priority)
    {
      RegisterOne(depList, parameters[k], lengthOf);
      assert parameters[..k + 1][..k] == parameters[..k];
    }
    assert parameters[..|parameters|] == parameters;
  }

  method RegisterOne(depList: DependencyList, param: nat, lengthOf: map<nat, nat>)
    modifies depList
    ensures depList.paramDeps == [EntryOf(param, lengthOf)] + old(depList.paramDeps)
    ensures depList.priority == old(depList.priority)
  {
    ghost var before := depList.paramDeps;
    depList.RegisterParam(param);
    if param in lengthOf {
      ghost var entered := depList.paramDeps;
      assert entered[0].param == param;
      depList.RegisterDependency(param, lengthOf[param]);
      assert [Dependency(lengthOf[param], false)] + [] == [Dependency(lengthOf[param], false)];
      assert depList.paramDeps == entered[0 := WithDependency(entered[0], lengthOf[param])];
    }
    assert depList.paramDeps == [EntryOf(param, lengthOf)] + before;
  }

  lemma EntriesDistinct(parameters: seq<nat>, lengthOf: map<nat, nat>)
    requires Distinct(parameters)
    ensures ParamsDistinct(Entries(parameters, lengthOf)) && Fresh(Entries(parameters, lengthOf))
  {
  }

  lemma EntriesListed(parameters: seq<nat>, lengthOf: map<nat, nat>, order: seq<nat>)
    requires forall i :: 0 <= i < |parameters| ==> Entries(parameters, lengthOf)[i].param in order
    ensures forall p :: p in parameters ==> p in order
  {
    forall p | p in parameters
      ensures p in order
    {
      var k :| 0 <= k < |parameters| && parameters[k] == p;
      assert Entries(parameters, lengthOf)[|parameters| - 1 - k].param == p;
    }
  }

  lemma LengthsFirst(parameters: seq<nat>, lengthOf: map<nat, nat>, order: seq<nat>, priority: map<nat, nat>,
                     sorted: seq<nat>)
    requires Sorted(Entries(parameters, lengthOf), order) && Prioritised(priority, map[], order)
    requires forall p :: p in parameters ==> p in order
    requires multiset(sorted) == multiset(parameters)
    requires Ascending(sorted, priority)
    ensures LengthsComeFirst(sorted, lengthOf)
  {
    forall i, j | 0 <= i < |sorted| && 0 <= j < |sorted| && sorted[j] in lengthOf && sorted[i] == lengthOf[sorted[j]]
      ensures i < j
    {
      var p, d := sorted[j], sorted[i];
      assert p in multiset(parameters);
      EntriesDepend(parameters, lengthOf, p, d);
      var k := Position(order, p);
      assert Depends(Entries(parameters, lengthOf), order[k], d);
      var l :| 0 <= l < k && order[l] == d;
      assert PriorityOf(priority, d) == l + 1 && PriorityOf(priority, p) == k + 1;
    }
  }
}
