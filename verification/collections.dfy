/**
 * Sequence and set vocabulary shared by the graph modules: duplicate-freedom,
 * the element set of a sequence, Python's `OrderedSet` insertion, the read of a
 * `defaultdict(set)`, and iteration over a Python `set` in an unspecified order.
 */
module Collections {

  /** No element occurs twice. */
  ghost predicate NoDups<T>(s: seq<T>) {
    forall i, j :: 0 <= i < j < |s| ==> s[i] != s[j]
  }

  /** The elements of a sequence, as a set. */
  function Elems<T>(s: seq<T>): (r: set<T>) {
    set x | x in s
  }

  /** One more element of the sequence adds that element to the set. */
  lemma ElemsOfLongerPrefix<T>(s: seq<T>, k: nat)
    requires k < |s|
    ensures Elems(s[..k + 1]) == Elems(s[..k]) + {s[k]}
  {
    assert s[..k + 1] == s[..k] + [s[k]];
  }

  /** The elements of a concatenation are the elements of either part. */
  lemma ElemsConcat<T>(a: seq<T>, b: seq<T>)
    ensures Elems(a + b) == Elems(a) + Elems(b)
  {
    assert forall x :: x in a + b <==> x in a || x in b;
  }

  /** A duplicate-free sequence has as many elements as its set. */
  lemma {:induction false} NoDupsCard<T>(s: seq<T>)
    requires NoDups(s)
    ensures |Elems(s)| == |s|
  {
    if s != [] {
      var front := s[..|s| - 1];
      assert NoDups(front);
      NoDupsCard(front);
      ElemsOfLongerPrefix(s, |s| - 1);
      assert s[..|s|] == s;
      assert s[|s| - 1] !in Elems(front);
    }
  }

  /** Appending an element not yet present keeps the sequence duplicate-free. */
  lemma AppendFresh<T>(s: seq<T>, x: T)
    requires NoDups(s) && x !in Elems(s)
    ensures NoDups(s + [x])
    ensures Elems(s + [x]) == Elems(s) + {x}
  {
    ElemsConcat(s, [x]);
  }

  /** `OrderedSet.add(x)`: append `x` unless it is already present. */
  function Insert<T(==)>(seen: seq<T>, x: T): (r: seq<T>)
    ensures seen <= r
    ensures Elems(r) == Elems(seen) + {x}
    ensures NoDups(seen) ==> NoDups(r)
  {
    if x in seen then seen else seen + [x]
  }

  /**
   * `r` extends `seen` by elements of `xs` that are not in `seen`, appended in
   * the order of their first occurrence in `xs`.
   */
  ghost predicate AppendsInOrder<T>(seen: seq<T>, xs: seq<T>, r: seq<T>) {
    && seen <= r
    && (forall i :: |seen| <= i < |r| ==> r[i] in xs && r[i] !in seen)
    && (forall i, j :: |seen| <= i < j < |r| ==>
          r[i] in xs && r[j] in xs && IndexOf(xs, r[i]) < IndexOf(xs, r[j]))
  }

  /** The position of the first occurrence of `x` in `xs`. */
  function IndexOf<T(==)>(xs: seq<T>, x: T): (k: nat)
    requires x in xs
    ensures k < |xs| && xs[k] == x
    ensures forall j :: 0 <= j < k ==> xs[j] != x
  {
    if xs[0] == x then 0
    else
      var k := 1 + IndexOf(xs[1..], x);
      assert forall j :: 1 <= j < k ==> xs[j] == xs[1..][j - 1];
      k
  }

  /** A position holding `x` with no `x` before it is the first occurrence. */
  lemma IndexOfUnique<T>(xs: seq<T>, x: T, k: nat)
    requires k < |xs| && xs[k] == x
    requires forall j :: 0 <= j < k ==> xs[j] != x
    ensures IndexOf(xs, x) == k
  {
  }

  /** The first occurrence comes no later than any occurrence. */
  lemma IndexOfFirst<T>(xs: seq<T>, j: nat)
    requires j < |xs|
    ensures IndexOf(xs, xs[j]) <= j
  {
  }

  /** An element of a prefix first occurs in the prefix where it first occurs in the whole. */
  lemma IndexOfPrefix<T>(xs: seq<T>, n: nat, x: T)
    requires n <= |xs| && x in xs[..n]
    ensures IndexOf(xs, x) == IndexOf(xs[..n], x)
  {
    var k := IndexOf(xs[..n], x);
    assert forall j :: 0 <= j < k ==> xs[j] == xs[..n][j];
    IndexOfUnique(xs, x, k);
  }

  /** Elements of a prefix first occur in the whole where they first occur in the prefix. */
  lemma IndexOfPrefixAll<T>(xs: seq<T>, n: nat)
    requires n <= |xs|
    ensures forall y :: y in xs[..n] ==> IndexOf(xs, y) == IndexOf(xs[..n], y)
  {
    forall y | y in xs[..n]
      ensures IndexOf(xs, y) == IndexOf(xs[..n], y)
    {
      IndexOfPrefix(xs, n, y);
    }
  }

  /** When the last element of `xs` is new, it is appended after everything that was. */
  lemma AppendLastInOrder<T>(seen: seq<T>, xs: seq<T>, front: seq<T>)
    requires xs != [] && xs[|xs| - 1] !in xs[..|xs| - 1] && xs[|xs| - 1] !in seen
    requires AppendsInOrder(seen, xs[..|xs| - 1], front)
    ensures AppendsInOrder(seen, xs, front + [xs[|xs| - 1]])
  {
    var n := |xs| - 1;
    var r := front + [xs[n]];
    IndexOfPrefixAll(xs, n);
    IndexOfUnique(xs, xs[n], n);
    assert forall i :: |seen| <= i < |front| ==> r[i] == front[i] && front[i] in xs[..n];
    assert forall y :: y in xs[..n] ==> y in xs;
  }

  /** When the last element of `xs` is already present, the order of the rest is kept in `xs`. */
  lemma KeepLastInOrder<T>(seen: seq<T>, xs: seq<T>, front: seq<T>)
    requires xs != []
    requires AppendsInOrder(seen, xs[..|xs| - 1], front)
    ensures AppendsInOrder(seen, xs, front)
  {
    var n := |xs| - 1;
    IndexOfPrefixAll(xs, n);
    assert forall y :: y in xs[..n] ==> y in xs;
  }

  /** Inserting the last element of `xs` extends an in-order insertion of the others. */
  lemma InsertLastInOrder<T>(seen: seq<T>, xs: seq<T>, front: seq<T>)
    requires xs != []
    requires AppendsInOrder(seen, xs[..|xs| - 1], front)
    requires Elems(front) == Elems(seen) + Elems(xs[..|xs| - 1])
    ensures AppendsInOrder(seen, xs, Insert(front, xs[|xs| - 1]))
  {
    var n := |xs| - 1;
    if xs[n] in front {
      KeepLastInOrder(seen, xs, front);
    } else {
      assert xs[n] !in Elems(seen) + Elems(xs[..n]);
      AppendLastInOrder(seen, xs, front);
    }
  }

  /**
   * `OrderedSet.update(xs)`: insert every element of `xs`, in order. What is
   * appended are the elements of `xs` not in `seen`, each once, in the order
   * of their first occurrence in `xs`.
   */
  function InsertAll<T(==)>(seen: seq<T>, xs: seq<T>): (r: seq<T>)
    ensures AppendsInOrder(seen, xs, r)
    ensures Elems(r) == Elems(seen) + Elems(xs)
    ensures NoDups(seen) ==> NoDups(r)
  {
    if xs == [] then seen
    else
      var n := |xs| - 1;
      var front := InsertAll(seen, xs[..n]);
      assert Elems(xs) == Elems(xs[..n]) + {xs[n]} by {
        assert xs == xs[..n] + [xs[n]];
      }
      InsertLastInOrder(seen, xs, front);
      Insert(front, xs[n])
  }

  /** Inserting one more element of `xs` is one more `add`. */
  lemma InsertAllPrefixStep<T>(seen: seq<T>, xs: seq<T>, i: nat)
    requires i < |xs|
    ensures InsertAll(seen, xs[..i + 1]) == Insert(InsertAll(seen, xs[..i]), xs[i])
  {
    assert xs[..i + 1][..i] == xs[..i];
  }

  /** Inserting `a` and then `b` is inserting `a + b`. */
  lemma {:induction false} InsertAllConcat<T>(seen: seq<T>, a: seq<T>, b: seq<T>)
    ensures InsertAll(InsertAll(seen, a), b) == InsertAll(seen, a + b)
  {
    if b == [] {
      assert a + b == a;
    } else {
      var n := |b| - 1;
      assert (a + b)[..|a + b| - 1] == a + b[..n];
      assert (a + b)[|a + b| - 1] == b[n];
      InsertAllConcat(seen, a, b[..n]);
    }
  }

  /** `OrderedSet(xs)`: the elements of `xs`, each once, in order of first occurrence. */
  function Dedup<T(==)>(xs: seq<T>): (r: seq<T>)
    ensures NoDups(r)
    ensures Elems(r) == Elems(xs)
    ensures forall i, j :: 0 <= i < j < |r| ==> r[i] in xs && r[j] in xs && IndexOf(xs, r[i]) < IndexOf(xs, r[j])
  {
    InsertAll([], xs)
  }

  /** `OrderedSet(xs[..i + 1])` adds `xs[i]` to `OrderedSet(xs[..i])`. */
  lemma DedupPrefixStep<T>(xs: seq<T>, i: nat)
    requires i < |xs|
    ensures Dedup(xs[..i + 1]) == Insert(Dedup(xs[..i]), xs[i])
  {
    InsertAllPrefixStep([], xs, i);
  }

  /**
   * If the elements before position `k` of `OrderedSet(xs)` all lie in `s`,
   * then so does everything before the first occurrence of its `k`-th element
   * in `xs`.
   */
  lemma DedupFirstOutside<T>(xs: seq<T>, s: set<T>, k: nat)
    requires k < |Dedup(xs)|
    requires forall j :: 0 <= j < k ==> Dedup(xs)[j] in s
    ensures exists p :: 0 <= p < |xs| && xs[p] == Dedup(xs)[k] && forall j :: 0 <= j < p ==> xs[j] in s
  {
    var order := Dedup(xs);
    assert order[k] in Elems(order);
    var p := IndexOf(xs, order[k]);
    forall j | 0 <= j < p
      ensures xs[j] in s
    {
      IndexOfFirst(xs, j);
      assert xs[j] in Elems(order);
      var k' :| 0 <= k' < |order| && order[k'] == xs[j];
      assert k' != k;
    }
  }

  /** A sequence without duplicates is its own `OrderedSet`. */
  lemma {:induction false} DedupOfDistinct<T>(xs: seq<T>)
    requires NoDups(xs)
    ensures Dedup(xs) == xs
  {
    if xs != [] {
      var front := xs[..|xs| - 1];
      assert NoDups(front);
      DedupOfDistinct(front);
      assert xs[|xs| - 1] !in front;
      assert xs == front + [xs[|xs| - 1]];
    }
  }

  /** Reading a `defaultdict(set)`: a missing key reads as the empty set. */
  function Lookup<K, V>(m: map<K, set<V>>, k: K): (r: set<V>)
    ensures k in m ==> r == m[k]
    ensures k !in m ==> r == {}
  {
    if k in m then m[k] else {}
  }

  /** `m` is `m0` with the values `vs` joined to the set under key `k`. */
  ghost predicate AddedAt<K(!new), V>(m0: map<K, set<V>>, m: map<K, set<V>>, k: K, vs: set<V>) {
    forall a :: Lookup(m, a) == Lookup(m0, a) + (if a == k then vs else {})
  }

  /** `m` is `m0` with the value `v` joined to the set under every key in `keys`. */
  ghost predicate AddedUnder<K(!new), V>(m0: map<K, set<V>>, m: map<K, set<V>>, keys: set<K>, v: V) {
    forall a :: Lookup(m, a) == Lookup(m0, a) + (if a in keys then {v} else {})
  }

  /** `defaultdict(set)`'s `m[k].add(v)`. */
  function Add<K(!new), V>(m: map<K, set<V>>, k: K, v: V): (r: map<K, set<V>>)
    ensures AddedAt(m, r, k, {v})
    ensures AddedUnder(m, r, {k}, v)
    ensures r.Keys == m.Keys + {k}
  {
    m[k := Lookup(m, k) + {v}]
  }

  /** Joining values at one key twice is joining their union. */
  lemma AddedAtTrans<K(!new), V>(m0: map<K, set<V>>, m1: map<K, set<V>>, m2: map<K, set<V>>, k: K, s: set<V>, t: set<V>)
    requires AddedAt(m0, m1, k, s) && AddedAt(m1, m2, k, t)
    ensures AddedAt(m0, m2, k, s + t)
  {
    forall a
      ensures Lookup(m2, a) == Lookup(m0, a) + (if a == k then s + t else {})
    {
      assert Lookup(m1, a) == Lookup(m0, a) + (if a == k then s else {});
      assert Lookup(m2, a) == Lookup(m1, a) + (if a == k then t else {});
    }
  }

  /** Joining a value under two key sets in turn is joining it under their union. */
  lemma AddedUnderTrans<K(!new), V>(m0: map<K, set<V>>, m1: map<K, set<V>>, m2: map<K, set<V>>, s: set<K>, t: set<K>, v: V)
    requires AddedUnder(m0, m1, s, v) && AddedUnder(m1, m2, t, v)
    ensures AddedUnder(m0, m2, s + t, v)
  {
    forall a
      ensures Lookup(m2, a) == Lookup(m0, a) + (if a in s + t then {v} else {})
    {
      assert Lookup(m1, a) == Lookup(m0, a) + (if a in s then {v} else {});
      assert Lookup(m2, a) == Lookup(m1, a) + (if a in t then {v} else {});
    }
  }

  /**
   * Iterating over a Python `set`: every element once, in an order the
   * source does not fix (here chosen arbitrarily).
   */
  method Enumerate<T(==)>(s: set<T>) returns (q: seq<T>)
    ensures Elems(q) == s
    ensures NoDups(q)
    ensures |q| == |s|
  {
    q := [];
    var rest := s;
    while rest != {}
      invariant rest !! Elems(q)
      invariant Elems(q) + rest == s
      invariant NoDups(q)
      invariant |q| + |rest| == |s|
      decreases rest
    {
      var x :| x in rest;
      q := q + [x];
      rest := rest - {x};
    }
  }

  /** Appends the elements of `s` that `seen` lacks, in some order, as a loop over a Python set does. */
  method InsertEach<T(==)>(seen: seq<T>, s: set<T>) returns (r: seq<T>)
    requires NoDups(seen)
    ensures NoDups(r)
    ensures seen <= r
    ensures Elems(r) == Elems(seen) + s
  {
    var q := Enumerate(s);
    r := InsertAll(seen, q);
  }

  /** `a` can be obtained from `b` by deleting elements. */
  predicate SubsequenceOf<T(==)>(a: seq<T>, b: seq<T>)
    decreases |b|
  {
    if a == [] then true
    else if b == [] then false
    else if a[0] == b[0] then SubsequenceOf(a[1..], b[1..])
    else SubsequenceOf(a, b[1..])
  }
}
