/**
 * `_DependentGraph`: two reverse-dependency maps, from an address to the
 * addresses that depend on it declaredly or implicitly, with queries for
 * direct and transitive dependents and a check that every depended-on address
 * exists.
 */
module DependentGraphs {
  import opened Wrappers
  import opened Collections
  import opened Addresses

  /** The `AddressLookupError` raised by `_validate`. */
  datatype AddressLookupError = AddressLookupError(dependency: Address, dependents: set<Address>)

  /** The addresses of the given adaptors. */
  function AddressesOf(adaptors: seq<TargetAdaptor>): (r: set<Address>)
    ensures forall i :: 0 <= i < |adaptors| ==> adaptors[i].address in r
    ensures forall a :: a in r ==> exists i :: 0 <= i < |adaptors| && adaptors[i].address == a
  {
    set i | 0 <= i < |adaptors| :: adaptors[i].address
  }

  /**
   * Every declared dependency of the adaptors, in the order `from_iterable`
   * meets them, repetitions included.
   */
  function DeclaredMentions(adaptors: seq<TargetAdaptor>): (r: seq<Address>) {
    if adaptors == [] then []
    else DeclaredMentions(adaptors[..|adaptors| - 1]) + adaptors[|adaptors| - 1].dependencies
  }

  /** An address is mentioned exactly when some adaptor declares it as a dependency. */
  lemma {:induction false} DeclaredMentionsSpec(adaptors: seq<TargetAdaptor>, d: Address)
    ensures d in DeclaredMentions(adaptors) <==> exists i :: 0 <= i < |adaptors| && d in adaptors[i].dependencies
  {
    if adaptors != [] {
      var front := adaptors[..|adaptors| - 1];
      DeclaredMentionsSpec(front, d);
      assert forall i :: 0 <= i < |front| ==> front[i] == adaptors[i];
    }
  }

  /** Injecting one more adaptor inserts its dependencies into the key order. */
  lemma MentionsStep(adaptors: seq<TargetAdaptor>, i: nat)
    requires i < |adaptors|
    ensures Dedup(DeclaredMentions(adaptors[..i + 1])) ==
            InsertAll(Dedup(DeclaredMentions(adaptors[..i])), adaptors[i].dependencies)
  {
    assert adaptors[..i + 1][..i] == adaptors[..i];
    InsertAllConcat([], DeclaredMentions(adaptors[..i]), adaptors[i].dependencies);
  }

  /** Injecting one more adaptor extends both maps from a prefix of the adaptors to the next. */
  lemma InjectedStep(adaptors: seq<TargetAdaptor>, i: nat,
                     declared: map<Address, set<Address>>, declared': map<Address, set<Address>>,
                     implicit: map<Address, set<Address>>, implicit': map<Address, set<Address>>)
    requires i < |adaptors|
    requires forall d :: Lookup(declared, d) == DeclaredDependents(adaptors[..i], d)
    requires forall d :: Lookup(implicit, d) == ImplicitDependents(adaptors[..i], d)
    requires AddedUnder(declared, declared', Elems(adaptors[i].dependencies), adaptors[i].address)
    requires AddedUnder(implicit, implicit', Elems(adaptors[i].implicitDependencies), adaptors[i].address)
    ensures forall d :: Lookup(declared', d) == DeclaredDependents(adaptors[..i + 1], d)
    ensures forall d :: Lookup(implicit', d) == ImplicitDependents(adaptors[..i + 1], d)
  {
    assert adaptors[..i + 1][..i] == adaptors[..i];
  }

  /** One more adaptor adds its address. */
  lemma AddressesOfStep(adaptors: seq<TargetAdaptor>, i: nat)
    requires i < |adaptors|
    ensures AddressesOf(adaptors[..i + 1]) == AddressesOf(adaptors[..i]) + {adaptors[i].address}
  {
    assert forall j :: 0 <= j < i ==> adaptors[..i + 1][j] == adaptors[..i][j];
  }

  /**
   * The first key of the dict not in `valid` is the first declared
   * dependency, in order of mention, that is not in `valid`.
   */
  lemma FirstMissingIsFirstMentioned(adaptors: seq<TargetAdaptor>, order: seq<Address>, valid: set<Address>, dep: Address)
    requires order == Dedup(DeclaredMentions(adaptors))
    requires exists k :: 0 <= k < |order| && order[k] == dep && forall j :: 0 <= j < k ==> order[j] in valid
    ensures exists p :: && 0 <= p < |DeclaredMentions(adaptors)|
                        && DeclaredMentions(adaptors)[p] == dep
                        && forall j :: 0 <= j < p ==> DeclaredMentions(adaptors)[j] in valid
  {
    var k :| 0 <= k < |order| && order[k] == dep && forall j :: 0 <= j < k ==> order[j] in valid;
    DedupFirstOutside(DeclaredMentions(adaptors), valid, k);
  }

  /** The addresses among `adaptors` that declare a dependency on `d`. */
  ghost function DeclaredDependents(adaptors: seq<TargetAdaptor>, d: Address): (r: set<Address>) {
    if adaptors == [] then {}
    else
      var last := adaptors[|adaptors| - 1];
      DeclaredDependents(adaptors[..|adaptors| - 1], d) + (if d in last.dependencies then {last.address} else {})
  }

  /** The addresses among `adaptors` whose target type adds an implicit dependency on `d`. */
  ghost function ImplicitDependents(adaptors: seq<TargetAdaptor>, d: Address): (r: set<Address>) {
    if adaptors == [] then {}
    else
      var last := adaptors[|adaptors| - 1];
      ImplicitDependents(adaptors[..|adaptors| - 1], d) + (if d in last.implicitDependencies then {last.address} else {})
  }

  /** `a` is among the declared dependents of `d` exactly when some adaptor at `a` lists `d`. */
  lemma {:induction false} DeclaredDependentsSpec(adaptors: seq<TargetAdaptor>, d: Address, a: Address)
    ensures a in DeclaredDependents(adaptors, d) <==>
      exists i :: 0 <= i < |adaptors| && adaptors[i].address == a && d in adaptors[i].dependencies
  {
    if adaptors != [] {
      var front := adaptors[..|adaptors| - 1];
      DeclaredDependentsSpec(front, d, a);
      if exists i :: 0 <= i < |front| && front[i].address == a && d in front[i].dependencies {
        var i :| 0 <= i < |front| && front[i].address == a && d in front[i].dependencies;
        assert adaptors[i] == front[i];
      }
      if exists i :: 0 <= i < |adaptors| && adaptors[i].address == a && d in adaptors[i].dependencies {
        var i :| 0 <= i < |adaptors| && adaptors[i].address == a && d in adaptors[i].dependencies;
        if i < |front| {
          assert front[i] == adaptors[i];
        }
      }
    }
  }

  /** An address has a declared dependent exactly when some adaptor lists it as a dependency. */
  lemma {:induction false} HasDeclaredDependents(adaptors: seq<TargetAdaptor>, d: Address)
    ensures DeclaredDependents(adaptors, d) != {} <==>
      exists i :: 0 <= i < |adaptors| && d in adaptors[i].dependencies
  {
    if exists i :: 0 <= i < |adaptors| && d in adaptors[i].dependencies {
      var i :| 0 <= i < |adaptors| && d in adaptors[i].dependencies;
      DeclaredDependentsSpec(adaptors, d, adaptors[i].address);
    }
    if DeclaredDependents(adaptors, d) != {} {
      var a :| a in DeclaredDependents(adaptors, d);
      DeclaredDependentsSpec(adaptors, d, a);
    }
  }

  /**
   * Adding a dependent under `dep`, and appending `dep` to the key order when
   * it is a new key, keeps the order an exact, duplicate-free listing of the
   * keys and keeps every entry non-empty.
   */
  lemma AddKeepsOrder(order: seq<Address>, m: map<Address, set<Address>>, dep: Address, v: Address)
    requires NoDups(order) && Elems(order) == m.Keys
    requires forall d :: d in m ==> m[d] != {}
    ensures var order' := if dep in m then order else order + [dep];
      && NoDups(order') && Elems(order') == Add(m, dep, v).Keys
      && (forall d :: d in Add(m, dep, v) ==> Add(m, dep, v)[d] != {})
  {
    var m' := Add(m, dep, v);
    assert Elems(order + [dep]) == Elems(order) + {dep};
    forall d | d in m'
      ensures m'[d] != {}
    {
      assert v in Lookup(m', dep);
    }
  }

  /**
   * Record `address` as a dependent of each of `deps` in `m`, appending each
   * new key to `order`, the keys of `m` in first-insertion order.
   */
  method AddDependent(order: seq<Address>, m: map<Address, set<Address>>, address: Address, deps: seq<Address>)
    returns (order': seq<Address>, m': map<Address, set<Address>>)
    requires NoDups(order) && Elems(order) == m.Keys
    requires forall d :: d in m ==> m[d] != {}
    ensures NoDups(order') && Elems(order') == m'.Keys
    ensures forall d :: d in m' ==> m'[d] != {}
    ensures order' == InsertAll(order, deps)
    ensures m'.Keys == m.Keys + Elems(deps)
    ensures AddedUnder(m, m', Elems(deps), address)
  {
    order', m' := order, m;
    assert AddedUnder(m, m', {}, address);
    for k := 0 to |deps|
      invariant NoDups(order') && Elems(order') == m'.Keys
      invariant forall d :: d in m' ==> m'[d] != {}
      invariant order' == InsertAll(order, deps[..k])
      invariant AddedUnder(m, m', Elems(deps[..k]), address)
    {
      var dep := deps[k];
      ElemsOfLongerPrefix(deps, k);
      InsertAllPrefixStep(order, deps, k);
      AddKeepsOrder(order', m', dep, address);
      if dep !in m' {
        order' := order' + [dep];
      }
      var next := Add(m', dep, address);
      AddedUnderTrans(m, m', next, Elems(deps[..k]), {dep}, address);
      m' := next;
    }
    assert deps[..|deps|] == deps;
  }

  class DependentGraph {
    /** `_dependent_address_map`: dependency to its declared dependents. */
    var dependentAddressMap: map<Address, set<Address>>
    /** `_implicit_dependent_address_map`: dependency to its implicit dependents. */
    var implicitDependentAddressMap: map<Address, set<Address>>
    /** The keys of `dependentAddressMap` in the order the dict first saw them. */
    var dependencyOrder: seq<Address>

    ghost predicate Valid()
      reads this
    {
      && NoDups(dependencyOrder)
      && Elems(dependencyOrder) == dependentAddressMap.Keys
      && (forall d :: d in dependentAddressMap ==> dependentAddressMap[d] != {})
      && (forall d :: d in implicitDependentAddressMap ==> implicitDependentAddressMap[d] != {})
    }

    /** The addresses that depend directly on `a`, declaredly or implicitly. */
    ghost function DirectDependents(a: Address): (r: set<Address>)
      reads this
    {
      Lookup(dependentAddressMap, a) + Lookup(implicitDependentAddressMap, a)
    }

    /** The direct dependents of any of `addresses`. */
    ghost function DirectDependentsOfAll(addresses: seq<Address>): (r: set<Address>)
      reads this
    {
      set a, x | a in addresses && x in DirectDependents(a) :: x
    }

    /** `__init__`: both maps start empty. */
    constructor ()
      ensures Valid()
      ensures dependentAddressMap == map[] && implicitDependentAddressMap == map[]
      ensures dependencyOrder == []
    {
      dependentAddressMap := map[];
      implicitDependentAddressMap := map[];
      dependencyOrder := [];
    }

    /** `_inject_target`: record `adaptor.address` as a dependent of each of its dependencies. */
    method InjectTarget(adaptor: TargetAdaptor)
      requires Valid()
      modifies this
      ensures Valid()
      ensures dependencyOrder == InsertAll(old(dependencyOrder), adaptor.dependencies)
      ensures dependentAddressMap.Keys == old(dependentAddressMap.Keys) + Elems(adaptor.dependencies)
      ensures AddedUnder(old(dependentAddressMap), dependentAddressMap, Elems(adaptor.dependencies), adaptor.address)
      ensures AddedUnder(old(implicitDependentAddressMap), implicitDependentAddressMap,
                         Elems(adaptor.implicitDependencies), adaptor.address)
    {
      InjectDeclared(adaptor.address, adaptor.dependencies);
      InjectImplicit(adaptor.address, adaptor.implicitDependencies);
    }

    /** The first loop of `_inject_target`, over the declared dependencies. */
    method InjectDeclared(address: Address, deps: seq<Address>)
      requires Valid()
      modifies this`dependentAddressMap, this`dependencyOrder
      ensures Valid()
      ensures dependencyOrder == InsertAll(old(dependencyOrder), deps)
      ensures dependentAddressMap.Keys == old(dependentAddressMap.Keys) + Elems(deps)
      ensures AddedUnder(old(dependentAddressMap), dependentAddressMap, Elems(deps), address)
    {
      dependencyOrder, dependentAddressMap := AddDependent(dependencyOrder, dependentAddressMap, address, deps);
    }

    /** The second loop of `_inject_target`, over the implicit dependencies. */
    method InjectImplicit(address: Address, deps: seq<Address>)
      requires Valid()
      modifies this`implicitDependentAddressMap
      ensures Valid()
      ensures AddedUnder(old(implicitDependentAddressMap), implicitDependentAddressMap, Elems(deps), address)
    {
      ghost var m0 := implicitDependentAddressMap;
      assert AddedUnder(m0, m0, {}, address);
      for k := 0 to |deps|
        invariant Valid()
        invariant AddedUnder(m0, implicitDependentAddressMap, Elems(deps[..k]), address)
      {
        var dep := deps[k];
        ElemsOfLongerPrefix(deps, k);
        ghost var m1 := implicitDependentAddressMap;
        implicitDependentAddressMap := Add(implicitDependentAddressMap, dep, address);
        AddedUnderTrans(m0, m1, implicitDependentAddressMap, Elems(deps[..k]), {dep}, address);
      }
      assert deps[..|deps|] == deps;
    }

    /**
     * `_validate`: fails, naming the first dependency (in the dict's order)
     * that is not a valid address, exactly when there is one.
     */
    method Validate(allValidAddresses: set<Address>) returns (r: Outcome<AddressLookupError>)
      requires Valid()
      ensures r.Pass? <==> dependentAddressMap.Keys <= allValidAddresses
      ensures r.Fail? ==> (exists k :: 0 <= k < |dependencyOrder| && dependencyOrder[k] == r.error.dependency
                                        && (forall j :: 0 <= j < k ==> dependencyOrder[j] in allValidAddresses))
      ensures r.Fail? ==> (&& r.error.dependency in dependentAddressMap
                           && r.error.dependency !in allValidAddresses
                           && r.error.dependents == dependentAddressMap[r.error.dependency])
    {
      for k := 0 to |dependencyOrder|
        invariant forall j :: 0 <= j < k ==> dependencyOrder[j] in allValidAddresses
      {
        var dependency := dependencyOrder[k];
        assert dependency in Elems(dependencyOrder);
        if dependency !in allValidAddresses {
          return Fail(AddressLookupError(dependency, dependentAddressMap[dependency]));
        }
      }
      forall d | d in dependentAddressMap
        ensures d in allValidAddresses
      {
        assert d in Elems(dependencyOrder);
      }
      return Pass;
    }

    /**
     * `dependents_of_addresses`: the addresses themselves, de-duplicated and in
     * order, followed by their direct dependents and nothing else.
     */
    method DependentsOfAddresses(addresses: seq<Address>) returns (seen: seq<Address>)
      ensures NoDups(seen)
      ensures Dedup(addresses) <= seen
      ensures Elems(seen) == Elems(addresses) + DirectDependentsOfAll(addresses)
    {
      seen := Dedup(addresses);
      ghost var start := seen;
      assert DirectDependentsOfAll(addresses[..0]) == {};
      for i := 0 to |addresses|
        invariant NoDups(seen)
        invariant start <= seen
        invariant Elems(seen) == Elems(addresses) + DirectDependentsOfAll(addresses[..i])
      {
        DirectDependentsOfLongerPrefix(addresses, i);
        seen := InsertDirectDependents(seen, addresses[i]);
      }
      assert addresses[..|addresses|] == addresses;
    }

    /** One iteration of `dependents_of_addresses`: add the declared, then the implicit, dependents of `a`. */
    method InsertDirectDependents(seen: seq<Address>, a: Address) returns (r: seq<Address>)
      requires NoDups(seen)
      ensures NoDups(r)
      ensures seen <= r
      ensures Elems(r) == Elems(seen) + DirectDependents(a)
    {
      r := InsertEach(seen, Lookup(dependentAddressMap, a));
      r := InsertEach(r, Lookup(implicitDependentAddressMap, a));
    }
  
    /** Extending the prefix of the queried addresses by one adds that address's direct dependents. */
    lemma DirectDependentsOfLongerPrefix(addresses: seq<Address>, i: nat)
      requires i < |addresses|
      ensures DirectDependentsOfAll(addresses[..i + 1]) == DirectDependentsOfAll(addresses[..i]) + DirectDependents(addresses[i])
    {
      assert addresses[..i + 1] == addresses[..i] + [addresses[i]];
    }

    /** Every address that some address depends on, declaredly or implicitly. */
    ghost function AllDependents(): (r: set<Address>)
      reads this
    {
      (set d, a | d in dependentAddressMap && a in dependentAddressMap[d] :: a)
      + (set d, a | d in implicitDependentAddressMap && a in implicitDependentAddressMap[d] :: a)
    }

    /** Position `i` of `result` is an input address or a direct dependent of an earlier entry. */
    ghost predicate Reached(addresses: seq<Address>, result: seq<Address>, i: int)
      requires 0 <= i < |result|
      reads this
    {
      result[i] in addresses || exists j :: 0 <= j < i && result[i] in DirectDependents(result[j])
    }

    /** Every position of `result` is reached. */
    ghost predicate AllReached(addresses: seq<Address>, result: seq<Address>)
      reads this
    {
      forall i :: 0 <= i < |result| ==> Reached(addresses, result, i)
    }

    /** Every direct dependent of an entry of `result` is in `result` or in `queue`. */
    ghost predicate Closed(result: seq<Address>, queue: seq<Address>)
      reads this
    {
      forall x, y :: x in result && y in DirectDependents(x) ==> y in result || y in queue
    }

    /** Every queued address is an input or a direct dependent of an entry of `result`. */
    ghost predicate Justified(addresses: seq<Address>, result: seq<Address>, queue: seq<Address>)
      reads this
    {
      forall y :: y in queue ==> y in addresses || exists j :: 0 <= j < |result| && y in DirectDependents(result[j])
    }

    /** Appending an input or a direct dependent of an entry keeps every position reached. */
    lemma ReachedAppend(addresses: seq<Address>, prev: seq<Address>, address: Address)
      requires AllReached(addresses, prev)
      requires address in addresses || exists j :: 0 <= j < |prev| && address in DirectDependents(prev[j])
      ensures AllReached(addresses, prev + [address])
    {
      var result := prev + [address];
      forall i | 0 <= i < |result|
        ensures Reached(addresses, result, i)
      {
        if i < |prev| {
          assert Reached(addresses, prev, i);
          if result[i] !in addresses {
            var j :| 0 <= j < i && prev[i] in DirectDependents(prev[j]);
            assert result[j] == prev[j];
          }
        } else if address !in addresses {
          var j :| 0 <= j < |prev| && address in DirectDependents(prev[j]);
          assert result[j] == prev[j];
        }
      }
    }

    /** Dropping an already visited head from the queue keeps the walk closed and justified. */
    lemma SkipVisited(addresses: seq<Address>, result: seq<Address>, address: Address, rest: seq<Address>)
      requires address in result
      requires Closed(result, [address] + rest) && Justified(addresses, result, [address] + rest)
      ensures Closed(result, rest) && Justified(addresses, result, rest)
    {
      forall x, y | x in result && y in DirectDependents(x)
        ensures y in result || y in rest
      {
        assert y in result || y in [address] + rest;
      }
    }

    /**
     * Visiting `address`, the head of the queue, and queueing its direct
     * dependents `found` keeps the walk closed, and keeps the queue holding
     * only inputs and direct dependents of visited entries.
     */
    lemma VisitHead(addresses: seq<Address>, prev: seq<Address>, address: Address, rest: seq<Address>, found: seq<Address>)
      requires Closed(prev, [address] + rest) && Justified(addresses, prev, [address] + rest)
      requires Elems(found) == DirectDependents(address)
      ensures address in addresses || exists j :: 0 <= j < |prev| && address in DirectDependents(prev[j])
      ensures Closed(prev + [address], rest + found)
      ensures Justified(addresses, prev + [address], rest + found)
    {
      var result := prev + [address];
      assert address in [address] + rest;
      forall x, y | x in result && y in DirectDependents(x)
        ensures y in result || y in rest + found
      {
        if x == address {
          assert y in Elems(found);
        } else {
          assert y in prev || y in [address] + rest;
        }
      }
      forall y | y in rest + found
        ensures y in addresses || exists j :: 0 <= j < |result| && y in DirectDependents(result[j])
      {
        if y in rest {
          assert y in [address] + rest;
          if y !in addresses {
            var j :| 0 <= j < |prev| && y in DirectDependents(prev[j]);
            assert result[j] == prev[j];
          }
        } else {
          assert y in Elems(found);
          assert result[|prev|] == address;
        }
      }
    }

    /**
     * `transitive_dependents_of_addresses`: a breadth-first walk over both
     * reverse maps. The result lists each address once, contains every input,
     * is closed under taking direct dependents, and holds nothing that is not
     * an input or a dependent of an earlier entry.
     */
    method TransitiveDependentsOfAddresses(addresses: seq<Address>) returns (result: seq<Address>)
      ensures NoDups(result)
      ensures Elems(addresses) <= Elems(result)
      ensures forall x, y :: x in result && y in DirectDependents(x) ==> y in result
      ensures forall i :: 0 <= i < |result| ==> Reached(addresses, result, i)
    {
      ghost var universe := Elems(addresses) + AllDependents();
      var closure: set<Address> := {};
      result := [];
      var toVisit := addresses;
      while toVisit != []
        invariant closure == Elems(result) && NoDups(result)
        invariant Elems(toVisit) <= universe && closure <= universe
        invariant Elems(addresses) <= closure + Elems(toVisit)
        invariant Closed(result, toVisit)
        invariant AllReached(addresses, result)
        invariant Justified(addresses, result, toVisit)
        decreases universe - closure, |toVisit|
      {
        var address := toVisit[0];
        var rest := toVisit[1..];
        assert toVisit == [address] + rest;
        ElemsConcat([address], rest);
        if address in closure {
          SkipVisited(addresses, result, address, rest);
          toVisit := rest;
          continue;
        }
        var declared := Enumerate(Lookup(dependentAddressMap, address));
        var implicit := Enumerate(Lookup(implicitDependentAddressMap, address));
        var found := declared + implicit;
        ElemsConcat(declared, implicit);
        ElemsConcat(rest, found);
        assert DirectDependents(address) <= AllDependents();
        VisitHead(addresses, result, address, rest, found);
        ReachedAppend(addresses, result, address);
        AppendFresh(result, address);
        closure := closure + {address};
        result := result + [address];
        toVisit := rest + found;
      }
    }

    /**
     * The loop of `from_iterable`: a fresh graph with every adaptor injected in
     * order, and the set of the adaptors' addresses.
     */
    static method InjectAll(adaptors: seq<TargetAdaptor>) returns (inst: DependentGraph, allValidAddresses: set<Address>)
      ensures fresh(inst) && inst.Valid()
      ensures allValidAddresses == AddressesOf(adaptors)
      ensures forall d :: Lookup(inst.dependentAddressMap, d) == DeclaredDependents(adaptors, d)
      ensures forall d :: Lookup(inst.implicitDependentAddressMap, d) == ImplicitDependents(adaptors, d)
      ensures inst.dependencyOrder == Dedup(DeclaredMentions(adaptors))
    {
      inst := new DependentGraph();
      allValidAddresses := {};
      for i := 0 to |adaptors|
        invariant fresh(inst) && inst.Valid()
        invariant allValidAddresses == AddressesOf(adaptors[..i])
        invariant forall d :: Lookup(inst.dependentAddressMap, d) == DeclaredDependents(adaptors[..i], d)
        invariant forall d :: Lookup(inst.implicitDependentAddressMap, d) == ImplicitDependents(adaptors[..i], d)
        invariant inst.dependencyOrder == Dedup(DeclaredMentions(adaptors[..i]))
      {
        MentionsStep(adaptors, i);
        ghost var declared, implicit := inst.dependentAddressMap, inst.implicitDependentAddressMap;
        inst.InjectTarget(adaptors[i]);
        InjectedStep(adaptors, i, declared, inst.dependentAddressMap, implicit, inst.implicitDependentAddressMap);
        AddressesOfStep(adaptors, i);
        allValidAddresses := allValidAddresses + {adaptors[i].address};
      }
      assert adaptors[..|adaptors|] == adaptors;
    }

    /**
     * `from_iterable`: inject every adaptor, then validate the declared
     * dependencies against the adaptors' own addresses.
     */
    static method FromIterable(adaptors: seq<TargetAdaptor>) returns (r: Result<DependentGraph, AddressLookupError>)
      ensures r.Success? <==>
        forall i, d :: 0 <= i < |adaptors| && d in adaptors[i].dependencies ==> d in AddressesOf(adaptors)
      ensures r.Success? ==> (&& fresh(r.value) && r.value.Valid()
                              && (forall d :: Lookup(r.value.dependentAddressMap, d) == DeclaredDependents(adaptors, d))
                              && (forall d :: Lookup(r.value.implicitDependentAddressMap, d) == ImplicitDependents(adaptors, d)))
      ensures r.Failure? ==> (&& r.error.dependency !in AddressesOf(adaptors)
                              && r.error.dependents != {}
                              && r.error.dependents == DeclaredDependents(adaptors, r.error.dependency))
      ensures r.Failure? ==> exists p :: && 0 <= p < |DeclaredMentions(adaptors)|
                                         && DeclaredMentions(adaptors)[p] == r.error.dependency
                                         && (forall j :: 0 <= j < p ==> DeclaredMentions(adaptors)[j] in AddressesOf(adaptors))
    {
      var inst, allValidAddresses := InjectAll(adaptors);
      var outcome := inst.Validate(allValidAddresses);
      forall d
        ensures d in inst.dependentAddressMap <==> exists i :: 0 <= i < |adaptors| && d in adaptors[i].dependencies
      {
        HasDeclaredDependents(adaptors, d);
      }
      if outcome.Fail? {
        FirstMissingIsFirstMentioned(adaptors, inst.dependencyOrder, allValidAddresses, outcome.error.dependency);
        return Failure(outcome.error);
      }
      return Success(inst);
    }
  }
}
