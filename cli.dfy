/** Choosing what to do from the command-line arguments. */
module Cli {

  /** Which package manager class handles the command. */
  datatype Variant = Brew | Cask

  datatype Verb = Init | Switch(upgrade: bool) | ShowVersion | ShowHelp | NotFound

  datatype Invocation = Invocation(variant: Variant, verb: Verb)

  /** `match(options)`: one of the options is, exactly, one of the arguments. */
  predicate Match(argv: seq<string>, options: seq<string>)
  {
    exists x :: x in options && x in argv
  }

  /** The words the dispatch looks for. */
  const KEYWORDS := {"--cask", "init", "switch", "--upgrade", "-V", "--version", "-h", "--help"}

  /** The arguments are looked at only as a set of whole words: `--cask`
      picks the variant; then `init`, `switch` (with `--upgrade`),
      `-V`/`--version` and `-h`/`--help` are tried in that order. */
  function Dispatch(argv: seq<string>): (r: Invocation)
    ensures r.variant == (if "--cask" in argv then Cask else Brew)
    ensures "init" in argv ==> r.verb == Init
    ensures "init" !in argv && "switch" in argv ==> r.verb == Switch("--upgrade" in argv)
    ensures "init" !in argv && "switch" !in argv ==>
      (r.verb == ShowVersion <==> "-V" in argv || "--version" in argv)
    ensures r.verb == ShowHelp <==>
      "init" !in argv && "switch" !in argv && "-V" !in argv && "--version" !in argv && ("-h" in argv || "--help" in argv)
    ensures r.verb == NotFound <==> forall k :: k in KEYWORDS - {"--cask", "--upgrade"} ==> k !in argv
  {
    var variant := if Match(argv, ["--cask"]) then Cask else Brew;
    var verb :=
      if Match(argv, ["init"]) then Init
      else if Match(argv, ["switch"]) then Switch(Match(argv, ["--upgrade"]))
      else if Match(argv, ["-V", "--version"]) then ShowVersion
      else if Match(argv, ["-h", "--help"]) then ShowHelp
      else NotFound;
    Invocation(variant, verb)
  }

  /** Only which words occur matters: neither their order, nor repetitions,
      nor any other word. */
  lemma DispatchSeesOnlyKeywords(a: seq<string>, b: seq<string>)
    requires forall k :: k in KEYWORDS ==> (k in a <==> k in b)
    ensures Dispatch(a) == Dispatch(b)
  {
  }
}
