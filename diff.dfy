/** The reconciliation step: from the installed packages and the wanted
    packages, the packages to install and the packages to uninstall. */
module Diff {
  import opened Wrappers
  import opened Packages
  import opened PkgObjects

  /** The packages to install: every wanted package that is not installed,
      or is installed at another version, with its wanted version. It is what
      remains of the wanted packages once those already installed at their
      wanted version are deleted: no key is added and no value changes. */
  function Added(current: map<Name, Version>, wanted: map<Name, Version>): (r: map<Name, Version>)
    ensures forall p :: p in r ==> p in wanted && r[p] == wanted[p]
    ensures forall p :: p in wanted && p !in r ==> p in current && current[p] == wanted[p]
  {
    map p | p in wanted && (p !in current || current[p] != wanted[p]) :: wanted[p]
  }

  /** The packages to uninstall: every installed package that is not wanted,
      or is wanted at another version, with its installed version. Every
      installed package left out of it is wanted at its installed version. */
  function Removed(current: map<Name, Version>, wanted: map<Name, Version>): (r: map<Name, Version>)
    ensures forall p :: p in r ==>
      p in current && r[p] == current[p] && !(p in wanted && wanted[p] == current[p])
    ensures forall p :: p in current && p !in r ==> p in wanted && wanted[p] == current[p]
  {
    map p | p in current && (p !in wanted || wanted[p] != current[p]) :: current[p]
  }

  /** The installed entries the loop has visited: those of the first `i`
      keys. */
  function Visited(keys: seq<Name>, vals: map<Name, Version>, i: nat): map<Name, Version>
    requires i <= |keys|
  {
    map p | p in keys[..i] && p in vals :: vals[p]
  }

  lemma VisitedStep(keys: seq<Name>, vals: map<Name, Version>, i: nat)
    requires Distinct(keys) && i < |keys| && keys[i] in vals
    ensures keys[i] !in Visited(keys, vals, i)
    ensures Visited(keys, vals, i + 1) == Visited(keys, vals, i)[keys[i] := vals[keys[i]]]
  {
  }

  /** Once the loop has visited every installed key, it has visited every
      installed entry. */
  lemma VisitedAll(keys: seq<Name>, vals: map<Name, Version>)
    requires forall k :: k in vals <==> k in keys
    ensures Visited(keys, vals, |keys|) == vals
  {
    assert keys[..|keys|] == keys;
  }

  lemma AddedStep(visited: map<Name, Version>, wanted: map<Name, Version>, p: Name, v: Version)
    requires p !in visited
    ensures Added(visited[p := v], wanted)
      == if p in wanted && wanted[p] == v then Added(visited, wanted) - {p} else Added(visited, wanted)
  {
  }

  lemma RemovedStep(visited: map<Name, Version>, wanted: map<Name, Version>, p: Name, v: Version)
    requires p !in visited
    ensures Removed(visited[p := v], wanted)
      == if p !in wanted || wanted[p] != v then Removed(visited, wanted)[p := v] else Removed(visited, wanted)
  {
  }

  /** One turn of the loop of `computeDiff`, for the installed package `pkg`
      at `currentHash`: a package wanted at another version, or not wanted,
      goes into `removed`; a package wanted at the same version is deleted
      from `added`; writing a changed package's wanted version back into
      `added` leaves it as it was. */
  method Visit(pkg: Name, currentHash: Version, added: PkgObject, removed: PkgObject)
    requires added.Valid() && removed.Valid() && added != removed
    requires pkg !in removed.vals
    modifies added, removed
    ensures added.Valid() && removed.Valid()
    ensures var same := pkg in old(added.vals) && old(added.vals)[pkg] == currentHash;
      && added.vals == (if same then old(added.vals) - {pkg} else old(added.vals))
      && added.order == (if same then Without(old(added.order), pkg) else old(added.order))
      && removed.vals == (if same then old(removed.vals) else old(removed.vals)[pkg := currentHash])
      && removed.order == (if same then old(removed.order) else old(removed.order) + [pkg])
  {
    if added.Has(pkg) {
      var wantedHash := added.vals[pkg];
      if currentHash != wantedHash {
        removed.Put(pkg, currentHash);
        added.Put(pkg, wantedHash);
        assert added.vals == old(added.vals);
      } else {
        added.Delete(pkg);
      }
    } else {
      removed.Put(pkg, currentHash);
    }
  }

  /** One turn of `Visit` keeps the loop invariants of `ComputeDiff`, now
      for the first `i + 1` installed packages. */
  lemma VisitKeepsInvariant(keys: seq<Name>, currentVals: map<Name, Version>, i: nat,
                            wanted0: map<Name, Version>, wantedOrder0: seq<Name>,
                            addedVals: map<Name, Version>, addedOrder: seq<Name>,
                            removedVals: map<Name, Version>, removedOrder: seq<Name>)
    requires Distinct(keys) && i < |keys| && keys[i] in currentVals
    requires addedVals == Added(Visited(keys, currentVals, i), wanted0)
    requires addedOrder == Keep(wantedOrder0, addedVals.Keys)
    requires removedVals == Removed(Visited(keys, currentVals, i), wanted0)
    requires removedOrder == Keep(keys[..i], Removed(currentVals, wanted0).Keys)
    ensures keys[i] !in removedVals
    ensures var pkg := keys[i];
      var same := pkg in addedVals && addedVals[pkg] == currentVals[pkg];
      var addedVals' := if same then addedVals - {pkg} else addedVals;
      && addedVals' == Added(Visited(keys, currentVals, i + 1), wanted0)
      && (if same then Without(addedOrder, pkg) else addedOrder) == Keep(wantedOrder0, addedVals'.Keys)
      && (if same then removedVals else removedVals[pkg := currentVals[pkg]])
         == Removed(Visited(keys, currentVals, i + 1), wanted0)
      && (if same then removedOrder else removedOrder + [pkg])
         == Keep(keys[..i + 1], Removed(currentVals, wanted0).Keys)
  {
    var pkg := keys[i];
    var visited := Visited(keys, currentVals, i);
    VisitedStep(keys, currentVals, i);
    AddedStep(visited, wanted0, pkg, currentVals[pkg]);
    RemovedStep(visited, wanted0, pkg, currentVals[pkg]);
    WithoutKeep(wantedOrder0, addedVals.Keys, pkg);
    assert keys[..i + 1][..i] == keys[..i];
    assert addedVals.Keys - {pkg} == (addedVals - {pkg}).Keys;
  }

  /** `computeDiff(currentPkgs, wantedPkgs)`. The wanted object itself is
      returned as the packages to install: the loop deletes from it every
      package installed at its wanted version and leaves the rest in their
      order. The packages to uninstall are a new object, in the order of the
      installed packages. */
  method ComputeDiff(current: PkgObject, wanted: PkgObject) returns (added: PkgObject, removed: PkgObject)
    requires current.Valid() && wanted.Valid()
    modifies wanted
    ensures added == wanted && fresh(removed)
    ensures added.Valid() && removed.Valid()
    ensures added.vals == Added(old(current.vals), old(wanted.vals))
    ensures added.order == Keep(old(wanted.order), added.vals.Keys)
    ensures removed.vals == Removed(old(current.vals), old(wanted.vals))
    ensures removed.order == Keep(old(current.order), removed.vals.Keys)
  {
    // Object.entries(currentPkgs) is taken once, before the loop changes anything.
    var keys, currentVals := current.order, current.vals;
    ghost var wanted0, wantedOrder0 := wanted.vals, wanted.order;
    ghost var gone := Removed(currentVals, wanted0).Keys;
    added := wanted;
    removed := new PkgObject.Empty();
    KeepAll(wantedOrder0, wanted0.Keys);
    VisitedAll(keys, currentVals);
    var i := 0;
    while i < |keys|
      invariant 0 <= i <= |keys|
      invariant added == wanted && fresh(removed)
      invariant wanted.Valid() && removed.Valid()
      invariant wanted.vals == Added(Visited(keys, currentVals, i), wanted0)
      invariant wanted.order == Keep(wantedOrder0, wanted.vals.Keys)
      invariant removed.vals == Removed(Visited(keys, currentVals, i), wanted0)
      invariant removed.order == Keep(keys[..i], gone)
    {
      var pkg := keys[i];
      var currentHash := currentVals[pkg];
      VisitKeepsInvariant(keys, currentVals, i, wanted0, wantedOrder0,
                          wanted.vals, wanted.order, removed.vals, removed.order);
      Visit(pkg, currentHash, added, removed);
      i := i + 1;
    }
    assert keys[..i] == keys;
  }

  /** The diff is empty exactly when the installed packages are the wanted
      ones: `computeDiff(S, S)` asks for nothing, and any other pair asks for
      something. */
  lemma DiffEmptyIff(current: map<Name, Version>, wanted: map<Name, Version>)
    ensures (Added(current, wanted) == map[] && Removed(current, wanted) == map[]) <==> current == wanted
  {
    if Added(current, wanted) == map[] && Removed(current, wanted) == map[] {
      forall p | p in current ensures p in wanted && wanted[p] == current[p] {
        assert p !in Removed(current, wanted);
      }
      forall p | p in wanted ensures p in current {
        assert p !in Added(current, wanted);
      }
    }
    if current == wanted {
      assert Added(current, wanted).Keys == {};
      assert Removed(current, wanted).Keys == {};
    }
  }

  /** Uninstalling the removed packages from the installed ones and then
      installing the added ones gives exactly the wanted packages. */
  lemma DiffReconciles(current: map<Name, Version>, wanted: map<Name, Version>)
    ensures (current - Removed(current, wanted).Keys) + Added(current, wanted) == wanted
  {
  }

  /** A package installed at one version and wanted at another is both
      uninstalled at the old version and installed at the new one. */
  lemma VersionChange(current: map<Name, Version>, wanted: map<Name, Version>, p: Name)
    requires p in current && p in wanted && current[p] != wanted[p]
    ensures p in Removed(current, wanted) && Removed(current, wanted)[p] == current[p]
    ensures p in Added(current, wanted) && Added(current, wanted)[p] == wanted[p]
  {
  }

  /** Installed `{a: 1, b: 2}`, wanted `{b: 2, c: 3}`: install `{c: 3}`,
      uninstall `{a: 1}`. */
  lemma ScenarioAddAndRemove()
    ensures var current := map["a" := Some("1"), "b" := Some("2")];
      var wanted := map["b" := Some("2"), "c" := Some("3")];
      Added(current, wanted) == map["c" := Some("3")] && Removed(current, wanted) == map["a" := Some("1")]
  {
  }

  /** Installed `{a: 1}`, wanted `{a: 2}`: uninstall `a` at 1, install it at 2. */
  lemma ScenarioUpgrade()
    ensures var current := map["a" := Some("1")];
      var wanted := map["a" := Some("2")];
      Added(current, wanted) == wanted && Removed(current, wanted) == current
  {
  }

  /** Nothing installed: install everything wanted, uninstall nothing; nothing
      wanted: uninstall everything installed. */
  lemma ScenarioEmptySides(packages: map<Name, Version>)
    ensures Added(map[], packages) == packages && Removed(map[], packages) == map[]
    ensures Added(packages, map[]) == map[] && Removed(packages, map[]) == packages
  {
  }
}
