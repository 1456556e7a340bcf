/** The commands `Brew.update` runs for a diff: at most one uninstall for all
    the packages to remove, then at most one install for all the packages to
    add. */
module Plan {
  import opened Wrappers
  import opened Text
  import opened Packages

  const UNINSTALL := "brew uninstall --ignore-dependencies "
  const INSTALL := "brew install "

  /** `[name, version].join("@")`; an absent version joins as the empty
      string. The name is read back as the text before the first `@` when it
      holds none, and the item holds no space when neither part does. */
  function Item(e: Entry): (item: string)
    ensures '@' !in e.name ==> Split(item, '@')[0] == e.name
    ensures ' ' !in e.name && ' ' !in e.version.GetOr("") ==> ' ' !in item
  {
    assert e.name + "@" + e.version.GetOr("") == e.name + ['@'] + e.version.GetOr("");
    assert '@' !in e.name ==> Split(e.name + ['@'] + e.version.GetOr(""), '@')[0] == e.name by {
      if '@' !in e.name {
        SplitPrefix(e.name, '@', e.version.GetOr(""));
      }
    }
    e.name + "@" + e.version.GetOr("")
  }

  function Items(es: seq<Entry>): seq<string>
  {
    seq(|es|, i requires 0 <= i < |es| => Item(es[i]))
  }

  /** The commands `Brew.update({addedPkgs, removedPkgs})` runs, given the
      entries of both objects in `Object.entries` order: at most one
      uninstall and at most one install, the uninstall first; nothing at all
      for an empty diff. */
  function UpdatePlan(added: seq<Entry>, removed: seq<Entry>): (cmds: seq<string>)
    ensures |cmds| == (if |removed| > 0 then 1 else 0) + (if |added| > 0 then 1 else 0)
    ensures |removed| > 0 ==> UNINSTALL <= cmds[0]
    ensures |added| > 0 ==> INSTALL <= cmds[|cmds| - 1]
    ensures cmds == [] <==> added == [] && removed == []
  {
    (if |removed| > 0 then [UNINSTALL + Join(Names(removed), ' ')] else [])
    + (if |added| > 0 then [INSTALL + Join(Items(added), ' ')] else [])
  }

  /** The uninstall command lists the names of the removed packages, and
      nothing else, in order: splitting its arguments on spaces gives them
      back when no name holds a space. Versions play no part. */
  lemma UninstallNamesRemoved(added: seq<Entry>, removed: seq<Entry>)
    requires |removed| > 0
    requires forall i :: 0 <= i < |removed| ==> ' ' !in removed[i].name
    ensures var cmd := UpdatePlan(added, removed)[0];
      && cmd[..|UNINSTALL|] == UNINSTALL
      && Split(cmd[|UNINSTALL|..], ' ') == Names(removed)
  {
    var cmd := UNINSTALL + Join(Names(removed), ' ');
    assert UpdatePlan(added, removed)[0] == cmd;
    assert cmd[|UNINSTALL|..] == Join(Names(removed), ' ');

  }

  /** The install command lists one `name@version` item per added package, in
      order: splitting its arguments on spaces gives the items back, and the
      part of each item before its first `@` is the package name, when names
      and versions hold no space and names no `@`. */
  lemma InstallItemsAdded(added: seq<Entry>, removed: seq<Entry>)
    requires |added| > 0
    requires forall i :: 0 <= i < |added| ==>
      ' ' !in added[i].name && '@' !in added[i].name && ' ' !in added[i].version.GetOr("")
    ensures var cmds := UpdatePlan(added, removed);
      var cmd := cmds[|cmds| - 1];
      && cmd[..|INSTALL|] == INSTALL
      && var items := Split(cmd[|INSTALL|..], ' ');
      && items == Items(added)
      && forall i :: 0 <= i < |added| ==> Split(items[i], '@')[0] == added[i].name
  {
    var cmds := UpdatePlan(added, removed);
    var cmd := INSTALL + Join(Items(added), ' ');
    assert cmds[|cmds| - 1] == cmd;
    assert cmd[|INSTALL|..] == Join(Items(added), ' ');
  }
}
