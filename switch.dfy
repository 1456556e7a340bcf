/** The `switch` command up to the commands it runs: the installed packages
    read from the output of `brew list`, diffed against the lock file's
    packages, turned into the uninstall and install commands. */
module SwitchCommand {
  import opened Packages
  import opened PkgObjects
  import opened Listing
  import opened Diff
  import opened Plan

  /** `PkgManager.update(computeDiff(PkgManager.detectCfg(), wantedCfg))`
      for `listOutput` the output of `brew list` and `wanted` the object read
      from the lock file. */
  method SwitchPlan(listOutput: string, wanted: PkgObject) returns (cmds: seq<string>)
    requires wanted.Valid()
    modifies wanted
    ensures wanted.Valid()
    ensures var installed := ToMap(PkgList(listOutput));
      var gone := Removed(installed, old(wanted.vals));
      && wanted.vals == Added(installed, old(wanted.vals))
      && wanted.order == Keep(old(wanted.order), wanted.vals.Keys)
      && cmds == UpdatePlan(wanted.Entries(), EntriesOf(Keep(Names(PkgList(listOutput)), gone.Keys), gone))
    ensures old(wanted.vals) == ToMap(PkgList(listOutput)) ==> cmds == []
  {
    var current := new PkgObject.FromEntries(PkgList(listOutput));
    var added, removed := ComputeDiff(current, wanted);
    cmds := UpdatePlan(added.Entries(), removed.Entries());
    DiffEmptyIff(current.vals, old(wanted.vals));
  }
}
