/**
 * `topo_sort` from the legacy build graph: a depth-first post-order walk from
 * each input target, filtered back to the input set, so that a target follows
 * every input target it depends on.
 *
 * A target is any value with equality; its dependencies are given by a
 * finite map (a target missing from the map has none).
 */
module TopoSort {
  import opened Collections

  type DependencyMap<T> = map<T, seq<T>>

  /** `ht.dependencies`. */
  function Deps<T>(g: DependencyMap<T>, t: T): (r: seq<T>) {
    if t in g then g[t] else []
  }

  /** Every target the map mentions, as a key or as a dependency. */
  ghost function Nodes<T>(g: DependencyMap<T>): (r: set<T>) {
    g.Keys + set k, d | k in g && d in g[k] :: d
  }

  /** Each element depends on the next one. */
  ghost predicate IsPath<T>(g: DependencyMap<T>, p: seq<T>) {
    forall i :: 0 <= i < |p| - 1 ==> p[i + 1] in Deps(g, p[i])
  }

  /** No target reaches itself through one or more dependency edges. */
  ghost predicate Acyclic<T(!new)>(g: DependencyMap<T>) {
    forall p :: IsPath(g, p) && |p| >= 2 ==> p[0] != p[|p| - 1]
  }

  /** "If B depends on A, B follows A in the order", for the targets listed. */
  ghost predicate DepsFirst<T>(g: DependencyMap<T>, s: seq<T>) {
    forall i, j :: 0 <= i < |s| && 0 <= j < |s| && s[j] in Deps(g, s[i]) ==> j < i
  }

  /** Every dependency of a listed target is listed before it. */
  ghost predicate FinishedAfterDeps<T>(g: DependencyMap<T>, s: seq<T>) {
    forall i, d :: 0 <= i < |s| && d in Deps(g, s[i]) ==> d in s[..i]
  }

  /**
   * The state of the walk: `res` holds the finished targets, `stack` the
   * targets whose dependencies are still being walked (outermost first);
   * `visited` is exactly the union of the two.
   */
  ghost predicate WalkInv<T(!new)>(g: DependencyMap<T>, visited: set<T>, res: seq<T>, stack: seq<T>) {
    && visited == Elems(res) + Elems(stack)
    && NoDups(res)
    && NoDups(stack)
    && Elems(res) !! Elems(stack)
    && IsPath(g, stack)
    && (Acyclic(g) ==> FinishedAfterDeps(g, res))
  }

  /** `b` is reached from `a` through one or more dependency edges. */
  ghost predicate Reaches<T(!new)>(g: DependencyMap<T>, a: T, b: T) {
    exists p :: IsPath(g, p) && |p| >= 2 && p[0] == a && p[|p| - 1] == b
  }

  /**
   * "Least to most dependent": a listed target follows every listed target it
   * reaches, directly or through targets that are not listed.
   */
  ghost predicate ReachFirst<T(!new)>(g: DependencyMap<T>, s: seq<T>) {
    forall i, j :: 0 <= i < |s| && 0 <= j < |s| && Reaches(g, s[i], s[j]) ==> j < i
  }

  /** Whatever a finished target reaches was finished before it. */
  lemma {:induction false} FinishedReachesEarlier<T(!new)>(g: DependencyMap<T>, s: seq<T>, i: nat, p: seq<T>)
    requires FinishedAfterDeps(g, s) && i < |s|
    requires IsPath(g, p) && |p| >= 2 && p[0] == s[i]
    ensures p[|p| - 1] in s[..i]
    decreases |p|
  {
    assert p[1] in Deps(g, s[i]);
    if |p| > 2 {
      var k :| 0 <= k < i && s[..i][k] == p[1];
      var q := p[1..];
      assert forall m :: 0 <= m < |q| ==> q[m] == p[m + 1];
      FinishedReachesEarlier(g, s, k, q);
      assert q[|q| - 1] == p[|p| - 1];
      assert forall m :: 0 <= m < k ==> s[..k][m] == s[..i][m];
    }
  }

  /** A duplicate-free list in which every dependency precedes its dependent is least to most dependent. */
  lemma FinishedIsReachFirst<T(!new)>(g: DependencyMap<T>, s: seq<T>)
    requires FinishedAfterDeps(g, s) && NoDups(s)
    ensures ReachFirst(g, s)
  {
    forall i, j | 0 <= i < |s| && 0 <= j < |s| && Reaches(g, s[i], s[j])
      ensures j < i
    {
      var p :| IsPath(g, p) && |p| >= 2 && p[0] == s[i] && p[|p| - 1] == s[j];
      FinishedReachesEarlier(g, s, i, p);
      var k :| 0 <= k < i && s[..i][k] == s[j];
      assert s[k] == s[j];
    }
  }

  /** Reaching first includes every direct dependency. */
  lemma ReachFirstHasDepsFirst<T(!new)>(g: DependencyMap<T>, s: seq<T>)
    requires ReachFirst(g, s)
    ensures DepsFirst(g, s)
  {
    forall i, j | 0 <= i < |s| && 0 <= j < |s| && s[j] in Deps(g, s[i])
      ensures j < i
    {
      assert IsPath(g, [s[i], s[j]]);
    }
  }

  /** The targets of the output filter: `tgt for tgt in res if tgt in input_set`. */
  function KeepOnly<T(==)>(s: seq<T>, keep: set<T>): (r: seq<T>)
    ensures Elems(r) == Elems(s) * keep
    ensures SubsequenceOf(r, s)
    ensures NoDups(s) ==> NoDups(r)
  {
    if s == [] then []
    else
      var rest := KeepOnly(s[1..], keep);
      assert Elems(s) == {s[0]} + Elems(s[1..]) by {
        assert s == [s[0]] + s[1..];
      }
      if s[0] in keep then
        assert NoDups(s) ==> s[0] !in Elems(s[1..]) && NoDups(s[1..]);
        ElemsConcat([s[0]], rest);
        assert NoDups(s) ==> s[0] !in Elems(rest);
        assert ([s[0]] + rest)[1..] == rest;
        assert SubsequenceOf([s[0]] + rest, s);
        [s[0]] + rest
      else
        assert rest != [] ==> rest[0] in Elems(rest) && rest[0] != s[0];
        rest
  }

  /** Filtering a list whose elements are all kept leaves it as it is. */
  lemma {:induction false} KeepOnlyAll<T>(s: seq<T>, keep: set<T>)
    requires Elems(s) <= keep
    ensures KeepOnly(s, keep) == s
  {
    if s != [] {
      assert s[0] in Elems(s);
      assert Elems(s[1..]) <= Elems(s);
      KeepOnlyAll(s[1..], keep);
    }
  }

  /** The first target of a list that is least to most dependent reaches none of the targets kept from it. */
  lemma HeadReachesNothingKept<T(!new)>(g: DependencyMap<T>, s: seq<T>, keep: set<T>)
    requires ReachFirst(g, s) && s != [] && s[0] in keep
    ensures forall j :: 0 <= j < |KeepOnly(s, keep)| ==> !Reaches(g, s[0], KeepOnly(s, keep)[j])
  {
    var r := KeepOnly(s, keep);
    var rest := KeepOnly(s[1..], keep);
    assert r == [s[0]] + rest;
    forall j | 0 <= j < |r|
      ensures !Reaches(g, s[0], r[j])
    {
      if j > 0 {
        assert r[j] in Elems(s[1..]) by {
          assert r[j] in Elems(rest);
        }
        var k :| 0 <= k < |s| - 1 && s[1..][k] == r[j];
        assert s[k + 1] == r[j];
      }
    }
  }

  /** Filtering keeps the relative order, so it keeps "least to most dependent". */
  lemma {:induction false} KeepOnlyKeepsReachFirst<T(!new)>(g: DependencyMap<T>, s: seq<T>, keep: set<T>)
    requires ReachFirst(g, s)
    ensures ReachFirst(g, KeepOnly(s, keep))
  {
    if s != [] {
      ReachFirstTail(g, s);
      KeepOnlyKeepsReachFirst(g, s[1..], keep);
      if s[0] in keep {
        HeadReachesNothingKept(g, s, keep);
        assert KeepOnly(s, keep) == [s[0]] + KeepOnly(s[1..], keep);
        ReachFirstCons(g, s[0], KeepOnly(s[1..], keep));
      }
    }
  }

  /** Dropping the first target keeps "least to most dependent". */
  lemma ReachFirstTail<T(!new)>(g: DependencyMap<T>, s: seq<T>)
    requires ReachFirst(g, s) && s != []
    ensures ReachFirst(g, s[1..])
  {
    assert forall i :: 0 <= i < |s[1..]| ==> s[1..][i] == s[i + 1];
  }

  /** A target that reaches none of the others can go first. */
  lemma ReachFirstCons<T(!new)>(g: DependencyMap<T>, x: T, rest: seq<T>)
    requires ReachFirst(g, rest)
    requires forall j :: 0 <= j < |[x] + rest| ==> !Reaches(g, x, ([x] + rest)[j])
    ensures ReachFirst(g, [x] + rest)
  {
    var r := [x] + rest;
    forall i, j | 0 <= i < |r| && 0 <= j < |r| && Reaches(g, r[i], r[j])
      ensures j < i
    {
      if i > 0 && j > 0 {
        assert r[i] == rest[i - 1] && r[j] == rest[j - 1];
      }
    }
  }

  /** Extending the walk stack with a dependency of its top keeps it a path. */
  lemma PushKeepsPath<T>(g: DependencyMap<T>, stack: seq<T>, ht: T)
    requires IsPath(g, stack)
    requires stack != [] ==> ht in Deps(g, stack[|stack| - 1])
    ensures IsPath(g, stack + [ht])
  {
  }

  /** A dependency of the top of the stack that is already on the stack closes a cycle. */
  lemma {:induction false} BackEdgeIsCycle<T(!new)>(g: DependencyMap<T>, p: seq<T>, d: T)
    requires p != [] && IsPath(g, p)
    requires d in Deps(g, p[|p| - 1]) && d in p
    ensures !Acyclic(g)
  {
    var k :| 0 <= k < |p| && p[k] == d;
    var q := p[k..] + [d];
    assert |q| >= 2 && q[0] == d && q[|q| - 1] == d;
    forall i | 0 <= i < |q| - 1
      ensures q[i + 1] in Deps(g, q[i])
    {
      if i < |q| - 2 {
        assert q[i] == p[k + i] && q[i + 1] == p[k + i + 1];
      }
    }
    assert IsPath(g, q);
  }

  /** Starting to walk an unvisited target pushes it on the stack. */
  lemma PushStep<T(!new)>(g: DependencyMap<T>, visited: set<T>, res: seq<T>, stack: seq<T>, ht: T)
    requires WalkInv(g, visited, res, stack)
    requires ht !in visited
    requires stack != [] ==> ht in Deps(g, stack[|stack| - 1])
    ensures WalkInv(g, visited + {ht}, res, stack + [ht])
  {
    PushKeepsPath(g, stack, ht);
    assert Elems(stack + [ht]) == Elems(stack) + {ht};
  }

  /**
   * Finishing the target on top of the stack moves it to `res`; on an acyclic
   * map every one of its dependencies is then already finished.
   */
  lemma FinishStep<T(!new)>(g: DependencyMap<T>, visited: set<T>, res: seq<T>, stack: seq<T>, ht: T)
    requires WalkInv(g, visited, res, stack + [ht])
    requires forall d :: d in Deps(g, ht) ==> d in visited
    ensures WalkInv(g, visited, res + [ht], stack)
  {
    var inner := stack + [ht];
    assert Elems(inner) == Elems(stack) + {ht};
    assert ht in inner && ht !in res;
    assert ht !in stack by {
      assert forall i :: 0 <= i < |stack| ==> inner[i] == stack[i];
      assert inner[|stack|] == ht;
    }
    assert NoDups(stack) && IsPath(g, stack) by {
      assert forall i :: 0 <= i < |stack| ==> stack[i] == inner[i];
    }
    assert Elems(res + [ht]) == Elems(res) + {ht};
    if Acyclic(g) {
      forall d | d in Deps(g, ht)
        ensures d in res
      {
        if d in inner {
          BackEdgeIsCycle(g, inner, d);
        }
      }
      var r := res + [ht];
      forall i, d | 0 <= i < |r| && d in Deps(g, r[i])
        ensures d in r[..i]
      {
        if i < |res| {
          assert r[..i] == res[..i];
        } else {
          assert r[..i] == res;
        }
      }
    }
  }

  /** `recursive_topo_sort(ht)`: walk the dependencies of `ht`, then finish it. */
  method Visit<T(==,!new)>(g: DependencyMap<T>, ht: T, visited: set<T>, res: seq<T>, ghost stack: seq<T>)
    returns (visited': set<T>, res': seq<T>)
    requires WalkInv(g, visited, res, stack)
    requires stack != [] ==> ht in Deps(g, stack[|stack| - 1])
    ensures WalkInv(g, visited', res', stack)
    ensures ht in visited'
    ensures visited <= visited'
    ensures res <= res'
    decreases Nodes(g) + {ht} - visited
  {
    if ht in visited {
      return visited, res;
    }
    PushStep(g, visited, res, stack, ht);
    visited', res' := visited + {ht}, res;
    var deps := Deps(g, ht);
    assert forall d :: d in deps ==> d in Nodes(g);
    ghost var inner := stack + [ht];
    assert inner[|inner| - 1] == ht;
    for k := 0 to |deps|
      invariant WalkInv(g, visited', res', inner)
      invariant visited + {ht} <= visited'
      invariant res <= res'
      invariant Elems(deps[..k]) <= visited'
    {
      assert deps[k] in Nodes(g) && ht !in Nodes(g) - visited';
      ElemsOfLongerPrefix(deps, k);
      visited', res' := Visit(g, deps[k], visited', res', inner);
    }
    assert deps[..|deps|] == deps;
    FinishStep(g, visited', res', stack, ht);
    res' := res' + [ht];
  }

  /** `topo_sort(targets)`. */
  method TopoSort<T(==,!new)>(targets: seq<T>, g: DependencyMap<T>) returns (r: seq<T>)
    ensures forall t :: t in r ==> t in targets
    ensures forall t :: t in targets ==> t in r
    ensures NoDups(r)
    ensures Acyclic(g) ==> ReachFirst(g, r)
    ensures Acyclic(g) ==> DepsFirst(g, r)
  {
    var visited: set<T> := {};
    var res: seq<T> := [];
    for i := 0 to |targets|
      invariant WalkInv(g, visited, res, [])
      invariant forall j :: 0 <= j < i ==> targets[j] in visited
    {
      visited, res := Visit(g, targets[i], visited, res, []);
    }
    r := KeepOnly(res, Elems(targets));
    assert forall t :: t in r <==> t in Elems(r);
    assert forall t :: t in targets ==> t in Elems(res);
    if Acyclic(g) {
      FinishedIsReachFirst(g, res);
      KeepOnlyKeepsReachFirst(g, res, Elems(targets));
      ReachFirstHasDepsFirst(g, r);
    }
  }
}

/**
 * `topo_sort` as the legacy build graph writes it, on `HydratedTarget`s whose
 * `dependencies` are addresses. `recursive_topo_sort(dep)` is then called on
 * an address, which it marks visited before reading the address's
 * `dependencies` attribute. An address has no such attribute (addresses are
 * not part of this model), so the first dependency reached raises
 * `AttributeError`.
 */
module TopoSortAsWritten {
  import opened Wrappers
  import opened Collections
  import Sorted = TopoSort

  /** A `HydratedTarget`: its address and the addresses it depends on (the adaptor is not modelled). */
  datatype HydratedTarget<A> = HydratedTarget(address: A, dependencies: seq<A>)

  /** What `recursive_topo_sort` is called on: an input target, or an address taken from `dependencies`. */
  datatype Walked<A> = Target(target: HydratedTarget<A>) | Addr(address: A)

  /** The `AttributeError` raised on reading `dependencies` of the given address. */
  datatype AttributeError<A> = AttributeError(address: A)

  /** The targets of the walk's state, as keys of `visited`. */
  ghost function TargetsOf<A>(res: seq<HydratedTarget<A>>): (r: set<Walked<A>>) {
    set t | t in res :: Target(t)
  }

  /** Appending a target to `res` marks it visited. */
  lemma TargetsOfAppend<A>(res: seq<HydratedTarget<A>>, t: HydratedTarget<A>)
    ensures TargetsOf(res + [t]) == TargetsOf(res) + {Target(t)}
    ensures Target(t) in TargetsOf(res) <==> t in res
    ensures forall w :: w in TargetsOf(res) ==> w.Target?
  {
  }

  /** The position of the first target with a dependency, or `|targets|` when there is none. */
  function FirstWithDependencies<A>(targets: seq<HydratedTarget<A>>): (k: nat)
    ensures k <= |targets|
    ensures k < |targets| ==> targets[k].dependencies != []
    ensures forall j :: 0 <= j < k ==> targets[j].dependencies == []
  {
    if targets == [] then 0
    else if targets[0].dependencies != [] then 0
    else 1 + FirstWithDependencies(targets[1..])
  }

  /**
   * What `topo_sort` returns or raises as written: the `AttributeError` for the
   * first dependency of the first target that has one, and otherwise the
   * targets de-duplicated in input order.
   */
  function Outcome<A(==)>(targets: seq<HydratedTarget<A>>): (r: Result<seq<HydratedTarget<A>>, AttributeError<A>>)
    ensures r.Success? <==> forall t :: t in targets ==> t.dependencies == []
    ensures r.Success? ==> NoDups(r.value) && Elems(r.value) == Elems(targets)
    ensures r.Failure? ==> exists k :: && 0 <= k < |targets|
                                       && targets[k].dependencies != []
                                       && r.error == AttributeError(targets[k].dependencies[0])
                                       && (forall j :: 0 <= j < k ==> targets[j].dependencies == [])
  {
    var k := FirstWithDependencies(targets);
    if k < |targets| then Failure(AttributeError(targets[k].dependencies[0]))
    else Success(Dedup(targets))
  }

  /**
   * `recursive_topo_sort(item)` as written. A target walks its dependency
   * addresses and is then appended; an address is marked visited and raises.
   */
  method Visit<A(==)>(item: Walked<A>, visited: set<Walked<A>>, res: seq<HydratedTarget<A>>)
    returns (visited': set<Walked<A>>, res': seq<HydratedTarget<A>>, err: Option<AttributeError<A>>)
    requires forall w :: w in visited ==> w.Target?
    ensures item in visited ==> visited' == visited && res' == res && err == None
    ensures item !in visited && item.Addr? ==> err == Some(AttributeError(item.address))
    ensures item !in visited && item.Target? && item.target.dependencies != [] ==>
              err == Some(AttributeError(item.target.dependencies[0]))
    ensures item !in visited && item.Target? && item.target.dependencies == [] ==>
              err == None && res' == res + [item.target] && visited' == visited + {item}
    decreases if item.Target? then 1 else 0
  {
    if item in visited {
      return visited, res, None;
    }
    visited', res' := visited + {item}, res;
    match item {
      case Addr(a) =>
        return visited', res', Some(AttributeError(a));
      case Target(ht) =>
        var deps := ht.dependencies;
        err := None;
        var k := 0;
        while k < |deps| && err == None
          invariant 0 <= k <= |deps|
          invariant err == None ==> k == 0 && visited' == visited + {item} && res' == res
          invariant err != None ==> deps != [] && err == Some(AttributeError(deps[0]))
          decreases |deps| - k
        {
          visited', res', err := Visit(Addr(deps[k]), visited', res');
          k := k + 1;
        }
        if err != None {
          return;
        }
        res' := res' + [ht];
    }
  }

  /** The call `recursive_topo_sort(target)` on one input target, as written. */
  method VisitInput<A(==)>(t: HydratedTarget<A>, visited: set<Walked<A>>, res: seq<HydratedTarget<A>>)
    returns (visited': set<Walked<A>>, res': seq<HydratedTarget<A>>, err: Option<AttributeError<A>>)
    requires visited == TargetsOf(res)
    requires forall u :: u in res ==> u.dependencies == []
    ensures t.dependencies == [] ==> err == None && res' == Insert(res, t) && visited' == TargetsOf(res')
    ensures t.dependencies != [] ==> err == Some(AttributeError(t.dependencies[0]))
  {
    TargetsOfAppend(res, t);
    visited', res', err := Visit(Target(t), visited, res);
  }

  /** The first target with a dependency decides the error. */
  lemma OutcomeFailsAt<A>(targets: seq<HydratedTarget<A>>, i: nat)
    requires i < |targets| && targets[i].dependencies != []
    requires forall j :: 0 <= j < i ==> targets[j].dependencies == []
    ensures Outcome(targets) == Failure(AttributeError(targets[i].dependencies[0]))
  {
    assert FirstWithDependencies(targets) == i;
  }

  /** Without dependencies the walk only de-duplicates. */
  lemma OutcomeSucceeds<A>(targets: seq<HydratedTarget<A>>)
    requires forall j :: 0 <= j < |targets| ==> targets[j].dependencies == []
    ensures Outcome(targets) == Success(Dedup(targets))
  {
    assert FirstWithDependencies(targets) == |targets|;
  }

  /** Walking one more input target without dependencies adds it to `res` unless it is already there. */
  lemma InputWalked<A>(targets: seq<HydratedTarget<A>>, i: nat, res: seq<HydratedTarget<A>>, res': seq<HydratedTarget<A>>)
    requires i < |targets| && targets[i].dependencies == []
    requires res == Dedup(targets[..i]) && res' == Insert(res, targets[i])
    requires forall u :: u in res ==> u.dependencies == []
    ensures res' == Dedup(targets[..i + 1])
    ensures forall u :: u in res' ==> u.dependencies == []
  {
    DedupPrefixStep(targets, i);
  }

  /** Once every input is walked, the filter by the input set keeps all of `res`. */
  lemma AllInputsWalked<A>(targets: seq<HydratedTarget<A>>, res: seq<HydratedTarget<A>>)
    requires res == Dedup(targets[..|targets|])
    requires forall j :: 0 <= j < |targets| ==> targets[j].dependencies == []
    ensures Success(Sorted.KeepOnly(res, Elems(targets))) == Outcome(targets)
  {
    assert targets[..|targets|] == targets;
    OutcomeSucceeds(targets);
    Sorted.KeepOnlyAll(res, Elems(targets));
  }

  /** `topo_sort(targets)` as written. */
  method TopoSort<A(==)>(targets: seq<HydratedTarget<A>>) returns (r: Result<seq<HydratedTarget<A>>, AttributeError<A>>)
    ensures r == Outcome(targets)
  {
    var visited: set<Walked<A>> := {};
    var res: seq<HydratedTarget<A>> := [];
    for i := 0 to |targets|
      invariant forall t :: t in targets[..i] ==> t.dependencies == []
      invariant res == Dedup(targets[..i])
      invariant visited == TargetsOf(res)
      invariant forall u :: u in res ==> u.dependencies == []
    {
      ghost var before := res;
      var err;
      visited, res, err := VisitInput(targets[i], visited, res);
      if err != None {
        OutcomeFailsAt(targets, i);
        return Failure(err.value);
      }
      InputWalked(targets, i, before, res);
    }
    AllInputsWalked(targets, res);
    return Success(Sorted.KeepOnly(res, Elems(targets)));
  }

  /**
   * Target 1 depends on target 2. As written, `topo_sort((t1, t2))` reads
   * `dependencies` of the address 2 and raises.
   */
  lemma AddressWalkExample()
    ensures Outcome([HydratedTarget(1, [2]), HydratedTarget(2, [])]) == Failure(AttributeError(2))
  {
    assert FirstWithDependencies([HydratedTarget(1, [2]), HydratedTarget(2, [])]) == 0;
  }

  /**
   * The same two targets with the dependency resolved to the target: every
   * output the intended sort may give puts target 2 before target 1.
   */
  lemma ResolvedWalkExample(r: seq<HydratedTarget<int>>)
    requires Elems(r) == {HydratedTarget(1, [2]), HydratedTarget(2, [])} && NoDups(r)
    requires Sorted.DepsFirst(map[HydratedTarget(1, [2]) := [HydratedTarget(2, [])]], r)
    ensures r == [HydratedTarget(2, []), HydratedTarget(1, [2])]
  {
    var a, b := HydratedTarget(1, [2]), HydratedTarget(2, []);
    var g := map[a := [b]];
    assert a in r && b in r;
    var i :| 0 <= i < |r| && r[i] == a;
    var j :| 0 <= j < |r| && r[j] == b;
    assert r[j] in Sorted.Deps(g, r[i]);
    NoDupsCard(r);
  }
}
