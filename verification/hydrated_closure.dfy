/**
 * `transitive_hydrated_targets`: flatten the transitive-dependency trees of
 * the requested roots into one de-duplicated closure, breadth first.
 *
 * A tree is the value `TransitiveHydratedTarget(root, dependencies)`; the
 * engine builds one per address and shares it, so in the trees it hands over
 * two nodes with the same root are the same node (`Consistent`). The walk
 * skips a node whose root was already collected, so only under that sharing
 * does the closure reach every root in the trees.
 */
module HydratedClosure {
  import opened Collections

  /** A root target and the trees of its direct dependencies. */
  datatype TransitiveHydratedTarget<H> = TransitiveHydratedTarget(root: H, dependencies: seq<TransitiveHydratedTarget<H>>)

  /** The roots asked for, and the flattened closure in visiting order. */
  datatype TransitiveHydratedTargets<H> = TransitiveHydratedTargets(roots: seq<H>, closure: seq<H>)

  /** The number of nodes in a tree, counting shared subtrees once per occurrence. */
  function Size<H>(t: TransitiveHydratedTarget<H>): (n: nat)
    ensures n >= 1
    decreases t, 1
  {
    1 + SizeAll(t.dependencies)
  }

  /** The number of nodes in a sequence of trees. */
  function SizeAll<H>(ts: seq<TransitiveHydratedTarget<H>>): (n: nat)
    ensures ts != [] ==> n >= Size(ts[0])
    decreases ts, 0
  {
    if ts == [] then 0 else Size(ts[0]) + SizeAll(ts[1..])
  }

  /** Sizes add up over concatenation. */
  lemma {:induction false} SizeAllConcat<H>(a: seq<TransitiveHydratedTarget<H>>, b: seq<TransitiveHydratedTarget<H>>)
    ensures SizeAll(a + b) == SizeAll(a) + SizeAll(b)
  {
    if a == [] {
      assert a + b == b;
    } else {
      assert (a + b)[0] == a[0];
      assert (a + b)[1..] == a[1..] + b;
      SizeAllConcat(a[1..], b);
    }
  }

  /** Every node of a tree, the tree itself included. */
  ghost function Subtrees<H>(t: TransitiveHydratedTarget<H>): (r: set<TransitiveHydratedTarget<H>>)
    decreases t
  {
    {t} + (set i, n | 0 <= i < |t.dependencies| && n in Subtrees(t.dependencies[i]) :: n)
  }

  /** Every node of a sequence of trees. */
  ghost function SubtreesAll<H>(ts: seq<TransitiveHydratedTarget<H>>): (r: set<TransitiveHydratedTarget<H>>) {
    set i, n | 0 <= i < |ts| && n in Subtrees(ts[i]) :: n
  }

  /** The roots of a set of nodes. */
  ghost function RootsOf<H>(nodes: set<TransitiveHydratedTarget<H>>): (r: set<H>) {
    set n | n in nodes :: n.root
  }

  /** Nodes with the same root are the same node, as when the engine shares one tree per target. */
  ghost predicate Consistent<H>(nodes: set<TransitiveHydratedTarget<H>>) {
    forall a, b :: a in nodes && b in nodes && a.root == b.root ==> a == b
  }

  /** The roots of the given trees, in order. */
  function Roots<H>(ts: seq<TransitiveHydratedTarget<H>>): (r: seq<H>)
    ensures |r| == |ts|
    ensures forall i :: 0 <= i < |ts| ==> r[i] == ts[i].root
  {
    seq(|ts|, i requires 0 <= i < |ts| => ts[i].root)
  }

  /**
   * With consistent sharing, a processed node whose children's roots were all
   * collected has every node below it processed.
   */
  lemma {:induction false} Covered<H>(t: TransitiveHydratedTarget<H>, processed: set<TransitiveHydratedTarget<H>>,
                                       closure: set<H>, all: set<TransitiveHydratedTarget<H>>)
    requires t in processed && Subtrees(t) <= all && processed <= all && Consistent(all)
    requires forall p, d :: p in processed && d in p.dependencies ==> d.root in closure
    requires closure <= RootsOf(processed)
    ensures Subtrees(t) <= processed
    decreases t
  {
    forall n | n in Subtrees(t)
      ensures n in processed
    {
      if n != t {
        var i :| 0 <= i < |t.dependencies| && n in Subtrees(t.dependencies[i]);
        var d := t.dependencies[i];
        assert d in Subtrees(d);
        var p :| p in processed && p.root == d.root;
        assert p == d;
        Covered(d, processed, closure, all);
      }
    }
  }

  /**
   * The state of the walk: `closure` lists the roots of the `processed` nodes
   * once each; a child of a processed node has its root collected or is still
   * queued; every requested tree has its root collected or is still queued.
   */
  ghost predicate WalkInv<H>(thts: seq<TransitiveHydratedTarget<H>>, all: set<TransitiveHydratedTarget<H>>,
                             closure: seq<H>, processed: set<TransitiveHydratedTarget<H>>,
                             toVisit: seq<TransitiveHydratedTarget<H>>) {
    && NoDups(closure)
    && Elems(closure) == RootsOf(processed)
    && processed <= all
    && (forall t :: t in toVisit ==> Subtrees(t) <= all)
    && (forall p, d :: p in processed && d in p.dependencies ==> d.root in closure || d in toVisit)
    && (forall i :: 0 <= i < |thts| ==> thts[i].root in closure || thts[i] in toVisit)
  }

  /** Popping a tree whose root is already collected keeps the walk's state. */
  lemma SkipStep<H>(thts: seq<TransitiveHydratedTarget<H>>, all: set<TransitiveHydratedTarget<H>>,
                    closure: seq<H>, processed: set<TransitiveHydratedTarget<H>>,
                    tht: TransitiveHydratedTarget<H>, rest: seq<TransitiveHydratedTarget<H>>)
    requires WalkInv(thts, all, closure, processed, [tht] + rest)
    requires tht.root in closure
    ensures WalkInv(thts, all, closure, processed, rest)
  {
    forall p, d | p in processed && d in p.dependencies
      ensures d.root in closure || d in rest
    {
      assert d in [tht] + rest ==> d == tht || d in rest;
    }
    forall i | 0 <= i < |thts|
      ensures thts[i].root in closure || thts[i] in rest
    {
      assert thts[i] in [tht] + rest ==> thts[i] == tht || thts[i] in rest;
    }
  }

  /** Collecting the root of a popped tree and queueing its dependencies keeps the walk's state. */
  lemma VisitStep<H>(thts: seq<TransitiveHydratedTarget<H>>, all: set<TransitiveHydratedTarget<H>>,
                     closure: seq<H>, processed: set<TransitiveHydratedTarget<H>>,
                     tht: TransitiveHydratedTarget<H>, rest: seq<TransitiveHydratedTarget<H>>)
    requires WalkInv(thts, all, closure, processed, [tht] + rest)
    requires tht.root !in closure
    ensures WalkInv(thts, all, closure + [tht.root], processed + {tht}, rest + tht.dependencies)
  {
    var closure', processed', toVisit' := closure + [tht.root], processed + {tht}, rest + tht.dependencies;
    assert tht in [tht] + rest;
    assert tht in Subtrees(tht);
    AppendFresh(closure, tht.root);
    forall t | t in toVisit'
      ensures Subtrees(t) <= all
    {
      if t !in rest {
        var i :| 0 <= i < |tht.dependencies| && tht.dependencies[i] == t;
        assert Subtrees(t) <= Subtrees(tht);
      }
    }
    forall p, d | p in processed' && d in p.dependencies
      ensures d.root in closure' || d in toVisit'
    {
      if p != tht {
        assert d.root in closure || d in [tht] + rest;
      }
    }
    forall i | 0 <= i < |thts|
      ensures thts[i].root in closure' || thts[i] in toVisit'
    {
      assert thts[i].root in closure || thts[i] in [tht] + rest;
    }
  }

  /** More nodes have more roots. */
  lemma RootsOfMono<H>(a: set<TransitiveHydratedTarget<H>>, b: set<TransitiveHydratedTarget<H>>)
    requires a <= b
    ensures RootsOf(a) <= RootsOf(b)
  {
  }

  /** Each requested tree lies within the nodes of all of them. */
  lemma SubtreesInAll<H>(thts: seq<TransitiveHydratedTarget<H>>, i: int)
    requires 0 <= i < |thts|
    ensures Subtrees(thts[i]) <= SubtreesAll(thts)
  {
  }

  /**
   * Once the queue is empty, with consistent sharing, the root of any node of
   * a requested tree was collected.
   */
  lemma RootCollected<H>(thts: seq<TransitiveHydratedTarget<H>>, collected: set<H>, processed: set<TransitiveHydratedTarget<H>>,
                         i: int, n: TransitiveHydratedTarget<H>)
    requires processed <= SubtreesAll(thts) && Consistent(SubtreesAll(thts))
    requires collected == RootsOf(processed)
    requires forall p, d :: p in processed && d in p.dependencies ==> d.root in collected
    requires 0 <= i < |thts| && thts[i].root in collected
    requires n in Subtrees(thts[i])
    ensures n.root in collected
  {
    var t := thts[i];
    SubtreesInAll(thts, i);
    assert t in Subtrees(t);
    var p :| p in processed && p.root == t.root;
    assert p == t;
    Covered(t, processed, collected, SubtreesAll(thts));
  }

  /** At the end of the walk, with consistent sharing, every node's root was collected. */
  lemma Complete<H>(thts: seq<TransitiveHydratedTarget<H>>, closure: seq<H>, processed: set<TransitiveHydratedTarget<H>>)
    requires WalkInv(thts, SubtreesAll(thts), closure, processed, [])
    requires Consistent(SubtreesAll(thts))
    ensures Elems(closure) == RootsOf(SubtreesAll(thts))
  {
    var collected := Elems(closure);
    RootsOfMono(processed, SubtreesAll(thts));
    assert forall p, d :: p in processed && d in p.dependencies ==> d.root in collected;
    forall n | n in SubtreesAll(thts)
      ensures n.root in collected
    {
      var i :| 0 <= i < |thts| && n in Subtrees(thts[i]);
      assert thts[i].root in closure;
      RootCollected(thts, collected, processed, i, n);
    }
  }

  /**
   * The walk over the queue: pop a tree; if its root was already collected
   * skip it, otherwise collect the root and queue its dependencies.
   */
  method TransitiveHydratedTargetsOf<H(==)>(thts: seq<TransitiveHydratedTarget<H>>) returns (r: TransitiveHydratedTargets<H>)
    ensures r.roots == Roots(thts)
    ensures NoDups(r.closure)
    ensures forall i :: 0 <= i < |thts| ==> thts[i].root in r.closure
    ensures Elems(r.closure) <= RootsOf(SubtreesAll(thts))
    ensures Consistent(SubtreesAll(thts)) ==> Elems(r.closure) == RootsOf(SubtreesAll(thts))
  {
    ghost var all := SubtreesAll(thts);
    var closure: seq<H> := [];
    var toVisit := thts;
    ghost var processed: set<TransitiveHydratedTarget<H>> := {};
    forall t | t in toVisit
      ensures Subtrees(t) <= all
    {
      var i :| 0 <= i < |thts| && thts[i] == t;
    }
    while toVisit != []
      invariant WalkInv(thts, all, closure, processed, toVisit)
      decreases SizeAll(toVisit)
    {
      var tht := toVisit[0];
      var rest := toVisit[1..];
      assert toVisit == [tht] + rest;
      SizeAllConcat([tht], rest);
      if tht.root in closure {
        SkipStep(thts, all, closure, processed, tht, rest);
        toVisit := rest;
        continue;
      }
      VisitStep(thts, all, closure, processed, tht, rest);
      SizeAllConcat(rest, tht.dependencies);
      closure := closure + [tht.root];
      processed := processed + {tht};
      toVisit := rest + tht.dependencies;
    }
    r := TransitiveHydratedTargets(Roots(thts), closure);
    if Consistent(all) {
      Complete(thts, closure, processed);
    }
  }
}
