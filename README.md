# home-brew-manager reconciler, in Dafny

home-brew-manager keeps a lock file of the Homebrew packages a user wants
(`~/.home-brew-manager.json`, a JSON object from package name to version).
`init` writes the currently installed packages into it; `switch` reads the
installed packages from `brew list`, compares them with the lock file, and
runs at most one `brew uninstall` and at most one `brew install` to make the
machine match.

This project models the logic of `index.js` between those shell calls:

- `computeDiff` (module `Diff`): a loop over the installed packages that
  fills a new object of packages to uninstall and deletes, from the wanted
  object itself, every package already installed at its wanted version; the
  shrunk wanted object is returned as the packages to install. It is a method
  over `PkgObject`, a class standing for a JavaScript object (keys in
  insertion order, a value per key), with `modifies wanted`. Its
  postconditions tie both results, values and key order, to the reference
  maps `Added` and `Removed`, whose contracts and lemmas state that the diff
  is empty exactly when installed and wanted agree, applying it turns the installed
  packages into the wanted ones, a version change is an uninstall of the old
  version plus an install of the new one, and the wanted object only loses
  keys.
- `Brew.pkgList` (module `Listing`): the text of `brew list` split into
  non-empty lines, each line into a name (first space-separated field cut at
  its first `@`) and an optional version (second field), merged by
  `Object.assign` so that a later line's version wins and a name keeps its
  first position. String splitting and joining (`Text`) are proved to be
  inverse to each other.
- `Brew.update` (module `Plan`): the command strings, an uninstall of the
  removed names followed by an install of the added `name@version` items,
  each present only when its side of the diff is not empty.
- The argument dispatch (module `Cli`) and the `switch` path that chains
  listing, diff and plan (module `SwitchCommand`).

A version is `Option<string>`: `None` stands for JavaScript's `undefined`
(a `brew list` line without a space). The output of `brew list` is a
parameter; the commands are returned as strings, never run.

There is no name-only variant: `Brew` and `Cask` share the one
`computeDiff` (index.js:31-42) over name-to-version objects.

## Model

| member | source | states |
|---|---|---|
| Text.Split | index.js:50-51 | `split(c)` gives at least one piece and no piece holds the separator |
| Text.Join | index.js:57-60 | `join(c)`: splitting the join of one or more separator-free pieces gives back the pieces |
| Text.JoinSplit | index.js:50-60 | joining the pieces of a split with the separator gives back the string |
| Text.SplitCount | index.js:50-51 | a string splits into one piece exactly when it holds no separator, and that piece is the string |
| Text.SplitFirst | index.js:51 | `split(c)[0]` is the longest separator-free prefix; when the separator occurs, the remaining pieces are the split of what follows it |
| Packages.ToMap | index.js:49-52 | the keys of an object's name-to-version view are exactly the names of its entries |
| Packages.ToMapLastWins | index.js:49-52 | under a name, the view holds the version of the last entry with that name |
| Packages.EntriesOf | index.js:55-58 | `Object.entries` lists the keys in insertion order and, for distinct keys that are exactly the object's, reads back into exactly the object's values |
| Packages.AssignNames | index.js:49 | `Object.assign` of one property keeps an existing key in place and appends a new one |
| Packages.AssignToMap | index.js:49 | `Object.assign` of one property keeps keys distinct and updates exactly that key in the view |
| Packages.AssignAll | index.js:49 | merging one-property objects into an object gives exactly the keys of both, no others |
| Packages.AssignAllDistinct | index.js:49 | merging the one-entry objects gives an object with distinct keys |
| Packages.AssignAllToMap | index.js:49-52 | the merged object's view is that of all entries in order, the last one for a name winning |
| Packages.AssignAllExample | index.js:49-52 | `{a:1},{b:2},{a:3}` merge into `{a:3, b:2}`: last version, first position |
| PkgObjects.PkgObject.Entries | index.js:33 | the entries of the object list its keys in order and read back into its values |
| PkgObjects.PkgObject.Empty | index.js:32 | `{}` has no keys |
| PkgObjects.PkgObject.FromEntries | index.js:49-52 | an object built from entries with distinct names has exactly those entries |
| PkgObjects.PkgObject.Has | index.js:34 | `k in obj` holds exactly for the object's keys |
| PkgObjects.PkgObject.Put | index.js:37-39 | assignment sets the value; a new key is appended, an existing key keeps its place |
| PkgObjects.PkgObject.Delete | index.js:38 | `delete` removes the key and its value and keeps the other keys' order |
| Diff.Added | index.js:32-38 | the packages to install are a sub-object of the wanted one with the same values; every wanted package left out is installed at its wanted version |
| Diff.Removed | index.js:34-39 | the packages to uninstall are installed ones at their installed versions, none wanted at that version; every installed package left out is wanted at its version |
| Diff.Visit | index.js:34-39 | one loop turn: a package wanted at its installed version is deleted from the wanted object; any other goes into the removed object at its installed version; the wanted object is otherwise unchanged |
| Diff.VisitKeepsInvariant | index.js:33-39 | one loop turn keeps both objects equal to the diff of the installed packages visited so far, each in its key order |
| Diff.ComputeDiff | index.js:31-42 | returns the wanted object itself, now holding exactly `Added(current, wanted)` in its original key order, and a fresh object holding exactly `Removed(current, wanted)` in the installed order |
| Diff.DiffEmptyIff | index.js:33-38 | both results are empty exactly when the installed and wanted packages are equal (`computeDiff(S, S)` is empty) |
| Diff.DiffReconciles | index.js:31-42 | dropping the packages to uninstall from the installed ones and adding the packages to install gives exactly the wanted packages |
| Diff.VersionChange | index.js:36-37 | a package at `v1` installed and `v2` wanted is removed at `v1` and added at `v2` |
| Diff.ScenarioAddAndRemove | index.js:31-42 | installed `{a:1, b:2}`, wanted `{b:2, c:3}` give install `{c:3}` and uninstall `{a:1}` |
| Diff.ScenarioUpgrade | index.js:36-37 | installed `{a:1}`, wanted `{a:2}` give install `{a:2}` and uninstall `{a:1}` |
| Diff.ScenarioEmptySides | index.js:33-39 | nothing installed means install all; nothing wanted means uninstall all |
| Listing.ParseLine | index.js:50-51 | a line's name holds no space and no `@`; it has a version exactly when it holds a space, and the version holds no space |
| Listing.NonEmptyLines | index.js:50 | the filtered lines are exactly the non-empty ones; a single line is kept exactly when it is not empty |
| Listing.NonEmptyLinesConcat | index.js:50 | filtering the lines distributes over concatenation |
| Listing.ParsedLines | index.js:50-51 | an output without a newline gives no entry when empty and else the entry of its one line |
| Listing.ParsedLinesCons | index.js:50-51 | the output is parsed line by line: the first line, unless empty, gives the first entry and the rest of the output the others |
| Listing.ParseLineName | index.js:50-51 | a line's package name is a prefix of it that ends at the end, at a space or at an `@` |
| Listing.ParseLineVersion | index.js:50-51 | a version is the text between the line's first space and the next space or the end |
| Listing.PkgList | index.js:49-52 | the parsed object's keys are distinct and exactly the names of the non-empty lines, and its view is that of the lines in order |
| Listing.PkgListLastWins | index.js:49-52 | for a name on several lines, the parsed object holds the version of the last one |
| Plan.Item | index.js:60 | a `name@version` item gives back its name before the first `@`, and holds no space when neither part does |
| Plan.UpdatePlan | index.js:54-61 | at most one uninstall and one install, uninstall first, each only for a non-empty side; no command for an empty diff |
| Plan.UninstallNamesRemoved | index.js:55-57 | the uninstall command is `brew uninstall --ignore-dependencies` followed by exactly the removed names, in order |
| Plan.InstallItemsAdded | index.js:58-60 | the install command is `brew install` followed by exactly one `name@version` item per added package, in order, each item's part before `@` being the name |
| Cli.Dispatch | index.js:96-125 | `--cask` picks the cask variant; `init` beats `switch` beats `-V`/`--version` beats `-h`/`--help`; otherwise the command is not found |
| Cli.DispatchSeesOnlyKeywords | index.js:96-108 | argument lists with the same keywords present dispatch alike, whatever their order and other words |
| SwitchCommand.SwitchPlan | index.js:101-103 | the commands of `switch` are the plan of the diff between the parsed `brew list` output and the lock file's object; the lock file's object keeps its key order and loses the packages already installed; no command when the two agree |

## Left out

- `runCmd` (index.js:3-14): running a shell command, printing it and exiting on failure is I/O; command output is a parameter and commands are returned as strings.
- `saveCfg` / `readCfg` (index.js:16-26): file access and JSON. The lock file's contents arrive as a `PkgObject`. Note that `JSON.stringify` drops properties whose value is `undefined`, so a package listed without a version would not survive a round trip through the lock file; that round trip is not modelled.
- `Brew.upgrade`, `Cask.upgrade`, `Brew.lock`, `Cask.lock` (index.js:63-65, 91-93): thin wrappers around shell commands and the lock file.
- `Cask.update` (index.js:81-89): refers to undefined identifiers and iterates over indices; it has no behaviour to state. Only `Brew.update` is modelled.
- `Cask.pkgsInfo` (index.js:77-79): unused URL rewriting of shell output.
- `Cask.detectCfg` and `Cask.lock` call Brew's listing and lock path (index.js:73, 93); the model's `Variant` is only the outcome of the dispatch, with no cask-specific listing.
- Help and version text (index.js:106-125): console output only; the dispatch returns `ShowVersion` / `ShowHelp`.
- JavaScript object quirks: keys found on the prototype chain (a package named `constructor`), keys that look like array indices (which `Object.entries` lists first, in numeric order), and loose `!=` coercion. Keys are plain strings in insertion order and versions are strings or absent.
- `process.argv` also holds the interpreter and script paths; the dispatch takes the whole argument list and only looks for exact words, so they matter only if they equal a keyword.
