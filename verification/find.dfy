/**
 * `main` of main.c: the usage check, the help flags, parsing, then the
 * traversal from the root given as the first argument.
 */
module Find {
  import opened Options
  import opened Predicates
  import opened Traversal
  import opened TraversalProperties

  /** What the program shows besides its exit status. */
  datatype Outcome =
    | UsageShown                      // fewer than two arguments: the usage line
    | HelpShown                       // `-h` or `--help` as the root: the parameter list
    | Rejected(error: ParseError)     // the diagnostic of `parse`
    | Searched(events: seq<Event>)    // the traversal's events

  predicate IsHelp(arg: string) {
    arg == "-h" || arg == "--help"
  }

  /**
   * The program on the argument vector `argv` (program name first) and the
   * file system object `root` that `argv[1]` names. The exit status is 1
   * when the arguments are missing or rejected and 0 otherwise.
   */
  method Run(argv: seq<string>, root: Node) returns (status: int, outcome: Outcome)
    ensures |argv| < 2 ==> status == 1 && outcome == UsageShown
    ensures |argv| >= 2 && IsHelp(argv[1]) ==> status == 0 && outcome == HelpShown
    ensures |argv| >= 2 && !IsHelp(argv[1]) && !ArgsValid(Tokens(argv))
            ==> status == 1 && outcome.Rejected? && ReportsFirstBadPair(Tokens(argv), Failed(outcome.error))
    ensures |argv| >= 2 && !IsHelp(argv[1]) && ArgsValid(Tokens(argv))
            ==> status == 0 && outcome == Searched(Walk(argv[1], FlagsFor(Tokens(argv)), root))
  {
    if |argv| < 2 {
      return 1, UsageShown;
    }
    if argv[1] == "-h" || argv[1] == "--help" {
      return 0, HelpShown;
    }
    var path := argv[1];
    var parsed := Parse(argv);
    if parsed.Failed? {
      return 1, Rejected(parsed.error);
    }
    var events := Dfs(path, parsed.flags, root);
    return 0, Searched(events);
  }

  /** With only a root on the command line, every reachable regular file whose status can be read is reported. */
  lemma BareCommandListsEverything(argv: seq<string>, root: Node, route: seq<Dirent>)
    requires |argv| == 2
    requires IsRoute(root, route) && route[|route| - 1].node.Regular? && route[|route| - 1].node.stat.Some?
    ensures ArgsValid(Tokens(argv))
    ensures Found(RoutePath(argv[1], route)) in Walk(argv[1], FlagsFor(Tokens(argv)), root)
  {
    assert Tokens(argv) == [];
    assert Enabled(FlagsFor(Tokens(argv))) == {};
    EveryFileWithoutTests(argv[1], FlagsFor(Tokens(argv)), root, route);
  }
}
