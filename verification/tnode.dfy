/**
 * The test nodes of the engine's graph tests: a `TNode(n)` produces a path of
 * tokens `T(node id, context id)` by requesting the node it depends on and
 * appending its own token; `TContext` decides that dependency, and
 * `TNode::validate` checks that a path has node ids 0, 1, 2, ... and
 * non-decreasing context ids.
 */
module GraphTestNodes {
  import opened Wrappers

  /** Rust's `usize`, 64 bits wide. */
  newtype usize = x: int | 0 <= x < 0x1_0000_0000_0000_0000

  /** `T(node id, context id)`. */
  datatype Token = T(nodeId: usize, contextId: usize)

  /** `TNode(n)`. */
  datatype TNode = TNode(n: usize)

  /**
   * The part of `TContext` the node logic reads: its id and the edge
   * overrides (a node mapped to `None` has no dependency).
   */
  datatype TContext = TContext(id: usize, edges: map<TNode, Option<TNode>>)

  /** The two `Err` messages of `validate`, without their rendering of the path. */
  datatype ValidationError = NodeIdsNotMonotonic | ContextIdsNotOrdered

  /** `node_id as isize`: values from 2^63 on wrap to negative numbers. */
  function AsIsize(x: usize): (r: int)
    ensures x < 0x8000_0000_0000_0000 ==> r == x as int
    ensures x >= 0x8000_0000_0000_0000 ==> r < 0
  {
    if x < 0x8000_0000_0000_0000 then x as int else x as int - 0x1_0000_0000_0000_0000
  }

  /** The node ids are exactly 0, 1, ..., |output| - 1, in order. */
  predicate NodeIdsConsecutive(output: seq<Token>) {
    forall i :: 0 <= i < |output| ==> output[i].nodeId as int == i
  }

  /** The context ids never decrease. */
  predicate ContextIdsOrdered(output: seq<Token>) {
    forall i, j :: 0 <= i < j < |output| ==> output[i].contextId <= output[j].contextId
  }

  /** The distinct context ids of a path. */
  function ContextIds(output: seq<Token>): (r: set<usize>) {
    set i | 0 <= i < |output| :: output[i].contextId
  }

  /** A path has at most as many distinct contexts as tokens, and at least one when non-empty. */
  lemma {:induction false} ContextIdsBounds(output: seq<Token>)
    ensures |ContextIds(output)| <= |output|
    ensures output != [] ==> |ContextIds(output)| >= 1
  {
    if output != [] {
      var front := output[..|output| - 1];
      ContextIdsBounds(front);
      assert ContextIds(output) == ContextIds(front) + {output[|output| - 1].contextId} by {
        forall c | c in ContextIds(output)
          ensures c in ContextIds(front) + {output[|output| - 1].contextId}
        {
          var i :| 0 <= i < |output| && output[i].contextId == c;
          if i < |front| {
            assert front[i] == output[i];
          }
        }
        forall c | c in ContextIds(front)
          ensures c in ContextIds(output)
        {
          var i :| 0 <= i < |front| && front[i].contextId == c;
          assert output[i] == front[i];
        }
      }
    }
  }

  /**
   * `TNode::validate`: first the node ids, against a running `previous`
   * starting at -1, then the context ids, against a running `previous`
   * starting at 0; the first violation returns its error. On success, the
   * number of distinct context ids.
   */
  method Validate(output: seq<Token>) returns (r: Result<nat, ValidationError>)
    requires |output| < 0x8000_0000_0000_0000  // a Rust `Vec` holds fewer than `isize::MAX` elements
    ensures r.Success? <==> NodeIdsConsecutive(output) && ContextIdsOrdered(output)
    ensures r == Failure(NodeIdsNotMonotonic) <==> !NodeIdsConsecutive(output)
    ensures r == Failure(ContextIdsNotOrdered) <==> NodeIdsConsecutive(output) && !ContextIdsOrdered(output)
    ensures r.Success? ==> r.value == |ContextIds(output)| && r.value <= |output|
  {
    var previous: int := -1;
    for k := 0 to |output|
      invariant previous == k - 1
      invariant forall i :: 0 <= i < k ==> output[i].nodeId as int == i
    {
      var nodeId := AsIsize(output[k].nodeId);
      if previous + 1 != nodeId {
        assert output[k].nodeId as int != k;
        return Failure(NodeIdsNotMonotonic);
      }
      previous := nodeId;
    }
    var previousContext: usize := 0;
    for k := 0 to |output|
      invariant k == 0 ==> previousContext == 0
      invariant k > 0 ==> previousContext == output[k - 1].contextId
      invariant forall i, j :: 0 <= i < j < k ==> output[i].contextId <= output[j].contextId
    {
      var contextId := output[k].contextId;
      if previousContext > contextId {
        assert output[k - 1].contextId > output[k].contextId;
        return Failure(ContextIdsNotOrdered);
      }
      previousContext := contextId;
    }
    ContextIdsBounds(output);
    return Success(|ContextIds(output)|);
  }

  /** `TContext::dependency_of`: an explicit edge wins; otherwise `TNode(n)` depends on `TNode(n - 1)`. */
  function DependencyOf(ctx: TContext, node: TNode): (r: Option<TNode>)
    ensures node in ctx.edges ==> r == ctx.edges[node]
    ensures node !in ctx.edges && node.n > 0 ==> r == Some(TNode(node.n - 1))
    ensures node !in ctx.edges && node.n == 0 ==> r == None
  {
    if node in ctx.edges then
      match ctx.edges[node]
      case Some(dep) => Some(dep)
      case None => None
    else if node.n > 0 then Some(TNode(node.n - 1))
    else None
  }

  /**
   * `TNode::run`: the dependency's path with this node's token appended, or
   * just this node's token when it has no dependency. The graph evaluates
   * the dependency in a context with the same id and edges. `fuel` bounds
   * the length of the dependency chain; `None` means it ran out.
   */
  function Run(ctx: TContext, node: TNode, fuel: nat): (r: Option<seq<Token>>)
    ensures r.Some? ==> |r.value| >= 1 && r.value[|r.value| - 1] == T(node.n, ctx.id)
    ensures r.Some? ==> forall i :: 0 <= i < |r.value| ==> r.value[i].contextId == ctx.id
    ensures r.Some? && DependencyOf(ctx, node).None? ==> r.value == [T(node.n, ctx.id)]
    ensures r.Some? && DependencyOf(ctx, node).Some? ==> |r.value| >= 2
    decreases fuel
  {
    if fuel == 0 then None
    else
      var token := T(node.n, ctx.id);
      match DependencyOf(ctx, node)
      case None => Some([token])
      case Some(dep) =>
        match Run(ctx, dep, fuel - 1)
        case None => None
        case Some(v) => Some(v + [token])
  }

  /** More fuel does not change a result that was reached. */
  lemma {:induction false} RunFuelMonotone(ctx: TContext, node: TNode, fuel: nat, more: nat)
    requires fuel <= more && Run(ctx, node, fuel).Some?
    ensures Run(ctx, node, more) == Run(ctx, node, fuel)
    decreases fuel
  {
    var dep := DependencyOf(ctx, node);
    if dep.Some? {
      RunFuelMonotone(ctx, dep.value, fuel - 1, more - 1);
    }
  }

  /** `[T(0, c), T(1, c), ..., T(n, c)]`. */
  function Chain(c: usize, n: usize): (r: seq<Token>)
    ensures |r| == n as int + 1
    ensures forall i :: 0 <= i < |r| ==> r[i] == T(i as usize, c)
    decreases n
  {
    if n == 0 then [T(0, c)] else Chain(c, n - 1) + [T(n, c)]
  }

  /** Without edge overrides, `TNode(n)` yields the full chain from `T(0, c)` to `T(n, c)`. */
  lemma {:induction false} RunWithoutOverrides(c: usize, n: usize, fuel: nat)
    requires fuel > n as int
    ensures Run(TContext(c, map[]), TNode(n), fuel) == Some(Chain(c, n))
    decreases n
  {
    if n > 0 {
      RunWithoutOverrides(c, n - 1, fuel - 1);
    }
  }

  /** `validate` accepts such a chain and counts one context. */
  lemma ChainIsValid(c: usize, n: usize)
    ensures NodeIdsConsecutive(Chain(c, n)) && ContextIdsOrdered(Chain(c, n))
    ensures |ContextIds(Chain(c, n))| == 1
  {
    var r := Chain(c, n);
    assert r[0] == T(0, c);
    assert ContextIds(r) == {c};
  }

  /** The `create` test: `TNode(2)` in context 0 yields `[T(0,0), T(1,0), T(2,0)]`. */
  lemma CreateExample()
    ensures Run(TContext(0, map[]), TNode(2), 3) == Some([T(0, 0), T(1, 0), T(2, 0)])
  {
    RunWithoutOverrides(0, 2, 3);
    assert Chain(0, 2) == [T(0, 0), T(1, 0), T(2, 0)];
  }

  /**
   * The truncated request of the `invalidate_with_changed_dependencies`
   * test: with `TNode(1)` mapped to no dependency, `TNode(2)` yields
   * `[T(1,0), T(2,0)]`, whose node ids do not start at 0.
   */
  lemma TruncatedExample()
    ensures Run(TContext(0, map[TNode(1) := None]), TNode(2), 3) == Some([T(1, 0), T(2, 0)])
    ensures !NodeIdsConsecutive([T(1, 0), T(2, 0)])
  {
    var ctx := TContext(0, map[TNode(1) := None]);
    assert DependencyOf(ctx, TNode(2)) == Some(TNode(1));
    assert DependencyOf(ctx, TNode(1)) == None;
    assert Run(ctx, TNode(1), 2) == Some([T(1, 0)]);
    assert Run(ctx, TNode(2), 3) == Some([T(1, 0)] + [T(2, 0)]);
    assert [T(1, 0)] + [T(2, 0)] == [T(1, 0), T(2, 0)];
    assert [T(1, 0), T(2, 0)][0].nodeId as int != 0;
  }

  /**
   * The reversed path of the `cyclic_dirtying` test: in context 1
   * with `TNode(1)` having no dependency and `TNode(0)` depending on
   * `TNode(1)`, `TNode(0)` yields `[T(1,1), T(0,1)]` and `TNode(2)` yields
   * `[T(1,1), T(2,1)]`.
   */
  lemma ReversedPathExample()
    ensures Run(TContext(1, map[TNode(1) := None, TNode(0) := Some(TNode(1))]), TNode(0), 2) == Some([T(1, 1), T(0, 1)])
    ensures Run(TContext(1, map[TNode(1) := None, TNode(0) := Some(TNode(1))]), TNode(2), 2) == Some([T(1, 1), T(2, 1)])
  {
    var ctx := TContext(1, map[TNode(1) := None, TNode(0) := Some(TNode(1))]);
    assert DependencyOf(ctx, TNode(1)) == None;
    assert DependencyOf(ctx, TNode(0)) == Some(TNode(1));
    assert DependencyOf(ctx, TNode(2)) == Some(TNode(1));
    assert Run(ctx, TNode(1), 1) == Some([T(1, 1)]);
    assert Run(ctx, TNode(0), 2) == Some([T(1, 1)] + [T(0, 1)]);
    assert Run(ctx, TNode(2), 2) == Some([T(1, 1)] + [T(2, 1)]);
    assert [T(1, 1)] + [T(0, 1)] == [T(1, 1), T(0, 1)];
    assert [T(1, 1)] + [T(2, 1)] == [T(1, 1), T(2, 1)];
  }

  /** The valid examples of `validate`'s documentation, with their context counts. */
  lemma ValidExamples()
    ensures var a := [T(0, 0), T(1, 1), T(2, 2), T(3, 3)];
      NodeIdsConsecutive(a) && ContextIdsOrdered(a) && |ContextIds(a)| == 4
    ensures var b := [T(0, 0), T(1, 0), T(2, 1), T(3, 1)];
      NodeIdsConsecutive(b) && ContextIdsOrdered(b) && |ContextIds(b)| == 2
  {
    var a := [T(0, 0), T(1, 1), T(2, 2), T(3, 3)];
    assert ContextIds(a) == {0, 1, 2, 3} by {
      assert a[0].contextId == 0 && a[1].contextId == 1 && a[2].contextId == 2 && a[3].contextId == 3;
    }
    var b := [T(0, 0), T(1, 0), T(2, 1), T(3, 1)];
    assert ContextIds(b) == {0, 1} by {
      assert b[0].contextId == 0 && b[2].contextId == 1;
    }
  }

  /**
   * The invalid examples: the first has decreasing context ids, the second a
   * repeated node id (and, like any path failing both checks, would be
   * reported for its node ids).
   */
  lemma InvalidExamples()
    ensures var a := [T(0, 0), T(1, 1), T(2, 1), T(3, 0)];
      NodeIdsConsecutive(a) && !ContextIdsOrdered(a)
    ensures !NodeIdsConsecutive([T(0, 0), T(1, 0), T(2, 0), T(1, 0)])
  {
    var a := [T(0, 0), T(1, 1), T(2, 1), T(3, 0)];
    assert a[1].contextId > a[3].contextId;
    var b := [T(0, 0), T(1, 0), T(2, 0), T(1, 0)];
    assert b[3].nodeId as int != 3;
  }
}
