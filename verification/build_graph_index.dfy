/**
 * The dependency indexing of `LegacyBuildGraph._index_target`: a target is
 * stored under its address and each declared dependency is linked in two
 * maps, forward (address to its dependencies) and backward (dependency to
 * its dependees). A dependency already linked from the same address is a
 * `DuplicateAddressError`.
 */
module BuildGraphIndex {
  import opened Wrappers
  import opened Collections
  import opened Addresses

  /** The `DuplicateAddressError`: `dependency` is referenced more than once by `target`. */
  datatype DuplicateAddressError = DuplicateAddressError(dependency: Address, target: Address)

  /**
   * The index of the first dependency that is already linked, either before
   * the call (`linked`) or earlier in `deps`; `|deps|` when there is none.
   */
  function FirstDuplicate(linked: set<Address>, deps: seq<Address>): (k: nat)
    ensures k <= |deps|
    ensures k < |deps| ==> deps[k] in linked + Elems(deps[..k])
    ensures forall j :: 0 <= j < k ==> deps[j] !in linked + Elems(deps[..j])
    decreases |deps|
  {
    if deps == [] then 0
    else if deps[0] in linked then 0
    else
      var rest := FirstDuplicate(linked + {deps[0]}, deps[1..]);
      ElemsOfPrefixes(deps);
      1 + rest
  }

  /** A prefix of `deps` one longer than a prefix of its tail adds the head. */
  lemma ElemsOfPrefixes(deps: seq<Address>)
    requires deps != []
    ensures forall j :: 0 <= j < |deps| ==> Elems(deps[..j + 1]) == {deps[0]} + Elems(deps[1..][..j])
  {
    forall j | 0 <= j < |deps|
      ensures Elems(deps[..j + 1]) == {deps[0]} + Elems(deps[1..][..j])
    {
      assert deps[1..][..j] == deps[1..j + 1];
      assert deps[..j + 1] == [deps[0]] + deps[1..j + 1];
      ElemsConcat([deps[0]], deps[1..j + 1]);
    }
  }

  /** Indexing succeeds exactly when the dependencies are distinct and none is already linked. */
  lemma NoDuplicateIffDistinct(linked: set<Address>, deps: seq<Address>)
    ensures FirstDuplicate(linked, deps) == |deps| <==> NoDups(deps) && Elems(deps) !! linked
  {
    var k := FirstDuplicate(linked, deps);
    if k == |deps| {
      forall i, j | 0 <= i < j < |deps|
        ensures deps[i] != deps[j]
      {
        assert deps[i] in Elems(deps[..j]);
      }
      forall x | x in Elems(deps)
        ensures x !in linked
      {
        var j :| 0 <= j < |deps| && deps[j] == x;
      }
    } else {
      assert deps[k] in linked + Elems(deps[..k]);
      if deps[k] !in linked {
        var j :| 0 <= j < k && deps[j] == deps[k];
      }
    }
  }

  /** Scanning up to the first duplicate: the dependency at `i` is already linked exactly when `i` is it. */
  lemma FirstDuplicateStep(linked: set<Address>, deps: seq<Address>, i: nat)
    requires i < |deps| && i <= FirstDuplicate(linked, deps)
    ensures deps[i] in linked + Elems(deps[..i]) <==> i == FirstDuplicate(linked, deps)
  {
  }

  class LegacyBuildGraph<Target> {
    /** `_target_by_address`. */
    var targetByAddress: map<Address, Target>
    /** `_target_dependencies_by_address`: address to the addresses it depends on. */
    var targetDependenciesByAddress: map<Address, set<Address>>
    /** `_target_dependees_by_address`: address to the addresses that depend on it. */
    var targetDependeesByAddress: map<Address, set<Address>>

    /** The two maps describe the same edges, in opposite directions. */
    ghost predicate Valid()
      reads this
    {
      forall a, d :: d in Lookup(targetDependenciesByAddress, a) <==> a in Lookup(targetDependeesByAddress, d)
    }

    constructor ()
      ensures Valid()
      ensures targetByAddress == map[]
      ensures targetDependenciesByAddress == map[] && targetDependeesByAddress == map[]
    {
      targetByAddress := map[];
      targetDependenciesByAddress := map[];
      targetDependeesByAddress := map[];
    }

    /** Link `address` to `dependency` in both maps. */
    method Link(address: Address, dependency: Address)
      requires Valid()
      modifies this`targetDependenciesByAddress, this`targetDependeesByAddress
      ensures Valid()
      ensures AddedAt(old(targetDependenciesByAddress), targetDependenciesByAddress, address, {dependency})
      ensures AddedUnder(old(targetDependeesByAddress), targetDependeesByAddress, {dependency}, address)
    {
      var deps := Add(targetDependenciesByAddress, address, dependency);
      var dees := Add(targetDependeesByAddress, dependency, address);
      forall a, d
        ensures d in Lookup(deps, a) <==> a in Lookup(dees, d)
      {
        assert d in Lookup(targetDependenciesByAddress, a) <==> a in Lookup(targetDependeesByAddress, d);
        assert Lookup(deps, a) == Lookup(targetDependenciesByAddress, a) + (if a == address then {dependency} else {});
        assert Lookup(dees, d) == Lookup(targetDependeesByAddress, d) + (if d == dependency then {address} else {});
      }
      targetDependenciesByAddress, targetDependeesByAddress := deps, dees;
    }

    /**
     * The state of the linking loop after `i` dependencies: the two maps still
     * agree, and they are the maps at the start (`deps0`, `dees0`) with
     * exactly the first `i` dependencies linked from `address`.
     */
    ghost predicate LinkedPrefix(deps0: map<Address, set<Address>>, dees0: map<Address, set<Address>>,
                                 address: Address, dependencies: seq<Address>, i: nat)
      requires i <= |dependencies|
      reads this
    {
      && Valid()
      && Lookup(targetDependenciesByAddress, address) == Lookup(deps0, address) + Elems(dependencies[..i])
      && AddedAt(deps0, targetDependenciesByAddress, address, Elems(dependencies[..i]))
      && AddedUnder(dees0, targetDependeesByAddress, Elems(dependencies[..i]), address)
    }

    /** One turn of the linking loop: link the dependency at `i`, which is not a duplicate. */
    method LinkNext(ghost deps0: map<Address, set<Address>>, ghost dees0: map<Address, set<Address>>,
                    address: Address, dependencies: seq<Address>, i: nat)
      requires i < |dependencies| && LinkedPrefix(deps0, dees0, address, dependencies, i)
      requires dependencies[i] !in Lookup(targetDependenciesByAddress, address)
      modifies this`targetDependenciesByAddress, this`targetDependeesByAddress
      ensures LinkedPrefix(deps0, dees0, address, dependencies, i + 1)
    {
      var dependency := dependencies[i];
      ElemsOfLongerPrefix(dependencies, i);
      ghost var deps1, dees1 := targetDependenciesByAddress, targetDependeesByAddress;
      Link(address, dependency);
      AddedAtTrans(deps0, deps1, targetDependenciesByAddress, address, Elems(dependencies[..i]), {dependency});
      AddedUnderTrans(dees0, dees1, targetDependeesByAddress, Elems(dependencies[..i]), {dependency}, address);
    }

    /**
     * The linking loop of `_index_target`: link the dependencies in order and
     * stop at the first one already linked from `address`, returning its index
     * (`|dependencies|` when every one was linked).
     */
    method LinkDependencies(address: Address, dependencies: seq<Address>) returns (k: nat)
      requires Valid()
      modifies this`targetDependenciesByAddress, this`targetDependeesByAddress
      ensures Valid()
      ensures k == FirstDuplicate(Lookup(old(targetDependenciesByAddress), address), dependencies)
      ensures AddedAt(old(targetDependenciesByAddress), targetDependenciesByAddress, address, Elems(dependencies[..k]))
      ensures AddedUnder(old(targetDependeesByAddress), targetDependeesByAddress, Elems(dependencies[..k]), address)
    {
      ghost var deps0, dees0 := targetDependenciesByAddress, targetDependeesByAddress;
      ghost var linked := Lookup(targetDependenciesByAddress, address);
      ghost var first := FirstDuplicate(linked, dependencies);
      var i := 0;
      assert AddedAt(deps0, deps0, address, {}) && AddedUnder(dees0, dees0, {}, address);
      while i < |dependencies| && dependencies[i] !in Lookup(targetDependenciesByAddress, address)
        invariant i <= first
        invariant LinkedPrefix(deps0, dees0, address, dependencies, i)
      {
        FirstDuplicateStep(linked, dependencies, i);
        LinkNext(deps0, dees0, address, dependencies, i);
        i := i + 1;
      }
      if i < |dependencies| {
        FirstDuplicateStep(linked, dependencies, i);
      }
      k := i;
    }

    /**
     * `_index_target`, with the instantiated `target` given. The target is
     * stored first; the dependencies are then linked one by one until the
     * first one that is already linked from `address`, which is reported.
     */
    method IndexTarget(address: Address, dependencies: seq<Address>, target: Target)
      returns (r: Result<Target, DuplicateAddressError>)
      requires Valid()
      modifies this
      ensures Valid()
      ensures targetByAddress == old(targetByAddress)[address := target]
      ensures var k := FirstDuplicate(Lookup(old(targetDependenciesByAddress), address), dependencies);
        && (r.Success? <==> k == |dependencies|)
        && (r.Success? ==> r.value == target)
        && (r.Failure? ==> r.error == DuplicateAddressError(dependencies[k], address))
        && AddedAt(old(targetDependenciesByAddress), targetDependenciesByAddress, address, Elems(dependencies[..k]))
        && AddedUnder(old(targetDependeesByAddress), targetDependeesByAddress, Elems(dependencies[..k]), address)
      ensures r.Success? ==> (forall d :: d in dependencies ==>
        d in Lookup(targetDependenciesByAddress, address) && address in Lookup(targetDependeesByAddress, d))
    {
      targetByAddress := targetByAddress[address := target];
      var k := LinkDependencies(address, dependencies);
      if k < |dependencies| {
        return Failure(DuplicateAddressError(dependencies[k], address));
      }
      assert dependencies[..k] == dependencies;
      return Success(target);
    }
  }
}
