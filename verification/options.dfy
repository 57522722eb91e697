/**
 * The command line of `find <root> [predicate...]` (main.c, `parse`).
 *
 * The tokens after the root are read left to right. Each of the five flags
 * `-inum`, `-name`, `-size`, `-nlinks` and `-exec` switches its predicate on and
 * takes exactly one following token as its value, whatever that token is. A
 * flag given twice keeps the value of its last occurrence. The first token that
 * is not a flag, a flag with nothing after it, or a `-size` value whose first
 * character is not `+`, `-` or `=` ends parsing with an error.
 */
module Options {
  import opened Wrappers
  import opened Numerals

  /**
   * The source's `struct flags`: one `should*` switch per predicate and the
   * targets it compares against. `greaterThan` is the size mode: 1 for "at
   * least", -1 for "at most", 0 for "exactly".
   */
  datatype Flags = Flags(
    inodeNum: int,
    size: int,
    name: string,
    pathToExecutable: string,
    linksNum: int,
    greaterThan: int,
    shouldInode: bool,
    shouldName: bool,
    shouldEquals: bool,
    shouldLinks: bool,
    shouldExecute: bool)

  /** The diagnostics `parse` prints before it returns -1. */
  datatype ParseError =
    | UndefinedToken(token: string)   // a token that is not one of the five flags
    | MissingValue(flag: string)      // a flag that is the last token
    | BadSizePrefix(value: string)    // a `-size` value not starting with '+', '-' or '='

  datatype ParseResult = Parsed(flags: Flags) | Failed(error: ParseError)

  const InumFlag := "-inum"
  const NameFlag := "-name"
  const SizeFlag := "-size"
  const LinksFlag := "-nlinks"
  const ExecFlag := "-exec"

  /** The five switches a flag can turn on. */
  datatype Switch = Inum | Name | Size | Links | Exec

  /** The flag spelling of each switch. */
  const Spellings: map<string, Switch> :=
    map[InumFlag := Inum, NameFlag := Name, SizeFlag := Size, LinksFlag := Links, ExecFlag := Exec]

  /** The switch a token names, if it is one of the five flags. */
  function SwitchOf(token: string): Option<Switch> {
    if token in Spellings then Some(Spellings[token]) else None
  }

  predicate IsFlag(token: string) {
    SwitchOf(token).Some?
  }

  /** A `-size` value must start with one of the three mode characters. */
  predicate SizeValueOk(value: string) {
    |value| > 0 && (value[0] == '+' || value[0] == '-' || value[0] == '=')
  }

  /** The mode a well-formed `-size` value selects. */
  function SizeMode(value: string): int
    requires SizeValueOk(value)
  {
    match value[0]
    case '+' => 1
    case '-' => -1
    case _ => 0
  }

  /** The predicate tokens: everything after the program name and the root. */
  function Tokens(argv: seq<string>): seq<string> {
    if |argv| < 2 then [] else argv[2..]
  }

  /** The pair starting at position `j` of the tokens is a flag followed by an acceptable value. */
  predicate PairOk(tokens: seq<string>, j: nat)
    requires j < |tokens|
  {
    j + 1 < |tokens| && IsFlag(tokens[j]) && (SwitchOf(tokens[j]) == Some(Size) ==> SizeValueOk(tokens[j + 1]))
  }

  /** Every pair starting at an even position below `n` is acceptable. */
  predicate PairsOkBelow(tokens: seq<string>, n: nat)
    requires n <= |tokens|
  {
    forall j: nat | j < n && j % 2 == 0 :: PairOk(tokens, j)
  }

  /** The tokens are a sequence of flag/value pairs and nothing else. */
  predicate ArgsValid(tokens: seq<string>) {
    |tokens| % 2 == 0 && PairsOkBelow(tokens, |tokens|)
  }

  /** The diagnostic for an unacceptable pair starting at position `j`. */
  function ErrorAt(tokens: seq<string>, j: nat): ParseError
    requires j < |tokens|
  {
    if !IsFlag(tokens[j]) then UndefinedToken(tokens[j])
    else if j + 1 == |tokens| then MissingValue(tokens[j])
    else BadSizePrefix(tokens[j + 1])
  }

  /**
   * `r` is the diagnostic for the first unacceptable pair, if there is one:
   * whichever pair is unacceptable while all pairs before it are acceptable,
   * `r` reports that pair.
   */
  predicate ReportsFirstBadPair(tokens: seq<string>, r: ParseResult) {
    forall j: nat | j < |tokens| && j % 2 == 0 && PairsOkBelow(tokens, j) && !PairOk(tokens, j)
      :: r == Failed(ErrorAt(tokens, j))
  }

  /**
   * The value the last occurrence of `switch`'s flag among the pairs of
   * `tokens[..n]` gives it, if the flag occurs there at all. Pairs are counted
   * back from `n`, which agrees with the scan's left-to-right pairing when `n`
   * is even; `Parse` relies on it only for accepted tokens, whose count is even.
   */
  function LastValue(tokens: seq<string>, n: nat, switch: Switch): Option<string>
    requires n <= |tokens|
    decreases n
  {
    if n < 2 then None
    else if SwitchOf(tokens[n - 2]) == Some(switch) then Some(tokens[n - 1])
    else LastValue(tokens, n - 2, switch)
  }

  /** The configuration before any pair is read: every predicate off. */
  const NoFlags := Flags(0, 0, "", "", 0, 0, false, false, false, false, false)

  /** What one flag/value pair does to the configuration: its switch goes on and its target is set. */
  function Apply(flags: Flags, switch: Switch, value: string): Flags {
    match switch
    case Inum => flags.(shouldInode := true, inodeNum := Atoi(value))
    case Name => flags.(shouldName := true, name := value)
    case Size =>
      if SizeValueOk(value) then flags.(shouldEquals := true, greaterThan := SizeMode(value), size := Atoi(value[1..]))
      else flags.(shouldEquals := true, greaterThan := 0, size := 0)
    case Links => flags.(shouldLinks := true, linksNum := Atoi(value))
    case Exec => flags.(shouldExecute := true, pathToExecutable := value)
  }

  /**
   * The configuration the pairs of `tokens[..n]` build, one pair after the
   * other. Tokens that are not flags are passed over. As for `LastValue`, the
   * pairs are those of the scan when `n` is even.
   */
  function FlagsUpTo(tokens: seq<string>, n: nat): Flags
    requires n <= |tokens|
    decreases n
  {
    if n < 2 then NoFlags
    else
      var prev := FlagsUpTo(tokens, n - 2);
      match SwitchOf(tokens[n - 2])
      case None => prev
      case Some(switch) => Apply(prev, switch, tokens[n - 1])
  }

  /** The configuration all the pairs build. */
  function FlagsFor(tokens: seq<string>): Flags {
    FlagsUpTo(tokens, |tokens|)
  }

  /*
   * What a configuration means with respect to the pairs of `tokens[..n]`: a
   * predicate is on exactly when its flag occurs, and its target comes from the
   * flag's last occurrence. Targets of predicates that are off are 0 or empty.
   */

  predicate TracksInum(flags: Flags, tokens: seq<string>, n: nat)
    requires n <= |tokens|
  {
    var v := LastValue(tokens, n, Inum);
    flags.shouldInode == v.Some? && flags.inodeNum == (if v.Some? then Atoi(v.value) else 0)
  }

  predicate TracksName(flags: Flags, tokens: seq<string>, n: nat)
    requires n <= |tokens|
  {
    var v := LastValue(tokens, n, Name);
    flags.shouldName == v.Some? && flags.name == (if v.Some? then v.value else "")
  }

  predicate TracksSize(flags: Flags, tokens: seq<string>, n: nat)
    requires n <= |tokens|
  {
    var v := LastValue(tokens, n, Size);
    && flags.shouldEquals == v.Some?
    && (v.Some? && SizeValueOk(v.value) ==> flags.greaterThan == SizeMode(v.value) && flags.size == Atoi(v.value[1..]))
    && (!(v.Some? && SizeValueOk(v.value)) ==> flags.greaterThan == 0 && flags.size == 0)
  }

  predicate TracksLinks(flags: Flags, tokens: seq<string>, n: nat)
    requires n <= |tokens|
  {
    var v := LastValue(tokens, n, Links);
    flags.shouldLinks == v.Some? && flags.linksNum == (if v.Some? then Atoi(v.value) else 0)
  }

  predicate TracksExec(flags: Flags, tokens: seq<string>, n: nat)
    requires n <= |tokens|
  {
    var v := LastValue(tokens, n, Exec);
    flags.shouldExecute == v.Some? && flags.pathToExecutable == (if v.Some? then v.value else "")
  }

  /** `flags` is the last-occurrence reading of all the pairs of `tokens`. */
  predicate Describes(flags: Flags, tokens: seq<string>) {
    var n := |tokens|;
    && TracksInum(flags, tokens, n) && TracksName(flags, tokens, n) && TracksSize(flags, tokens, n)
    && TracksLinks(flags, tokens, n) && TracksExec(flags, tokens, n)
  }

  lemma {:induction false} InumFromLastOccurrence(tokens: seq<string>, n: nat)
    requires n <= |tokens|
    ensures TracksInum(FlagsUpTo(tokens, n), tokens, n)
    decreases n
  {
    if n >= 2 {
      InumFromLastOccurrence(tokens, n - 2);
    }
  }

  lemma {:induction false} NameFromLastOccurrence(tokens: seq<string>, n: nat)
    requires n <= |tokens|
    ensures TracksName(FlagsUpTo(tokens, n), tokens, n)
    decreases n
  {
    if n >= 2 {
      NameFromLastOccurrence(tokens, n - 2);
    }
  }

  lemma {:induction false} SizeFromLastOccurrence(tokens: seq<string>, n: nat)
    requires n <= |tokens|
    ensures TracksSize(FlagsUpTo(tokens, n), tokens, n)
    decreases n
  {
    if n >= 2 {
      SizeFromLastOccurrence(tokens, n - 2);
    }
  }

  lemma {:induction false} LinksFromLastOccurrence(tokens: seq<string>, n: nat)
    requires n <= |tokens|
    ensures TracksLinks(FlagsUpTo(tokens, n), tokens, n)
    decreases n
  {
    if n >= 2 {
      LinksFromLastOccurrence(tokens, n - 2);
    }
  }

  lemma {:induction false} ExecFromLastOccurrence(tokens: seq<string>, n: nat)
    requires n <= |tokens|
    ensures TracksExec(FlagsUpTo(tokens, n), tokens, n)
    decreases n
  {
    if n >= 2 {
      ExecFromLastOccurrence(tokens, n - 2);
    }
  }

  /** The configuration built pair after pair is the last-occurrence one. */
  lemma FlagsForLastOccurrence(tokens: seq<string>)
    ensures Describes(FlagsFor(tokens), tokens)
  {
    var n := |tokens|;
    InumFromLastOccurrence(tokens, n);
    NameFromLastOccurrence(tokens, n);
    SizeFromLastOccurrence(tokens, n);
    LinksFromLastOccurrence(tokens, n);
    ExecFromLastOccurrence(tokens, n);
  }

  /** One more acceptable pair extends the acceptable prefix. */
  lemma PairsOkStep(tokens: seq<string>, n: nat)
    requires n % 2 == 0 && n < |tokens|
    requires PairsOkBelow(tokens, n) && PairOk(tokens, n)
    ensures n + 2 <= |tokens| && PairsOkBelow(tokens, n + 2)
  {
  }

  /**
   * The pair at `n` is the first unacceptable one: the tokens are not valid
   * and no other position is a first unacceptable pair.
   */
  lemma FirstBadPair(tokens: seq<string>, n: nat)
    requires n % 2 == 0 && n < |tokens|
    requires PairsOkBelow(tokens, n) && !PairOk(tokens, n)
    ensures !ArgsValid(tokens)
    ensures ReportsFirstBadPair(tokens, Failed(ErrorAt(tokens, n)))
  {
    forall j: nat | j < |tokens| && j % 2 == 0 && PairsOkBelow(tokens, j) && !PairOk(tokens, j)
      ensures j == n
    {
    }
    if |tokens| % 2 == 0 {
      assert !PairsOkBelow(tokens, |tokens|) by { assert !PairOk(tokens, n); }
    }
  }

  /**
   * The model of `parse`: a left-to-right scan from index 2 that fills the
   * flags one pair at a time. It succeeds exactly when the tokens are flag/value
   * pairs, with the configuration those pairs describe; otherwise it reports
   * the first pair that is not acceptable.
   */
  method Parse(argv: seq<string>) returns (r: ParseResult)
    ensures r.Parsed? <==> ArgsValid(Tokens(argv))
    ensures r.Parsed? ==> r.flags == FlagsFor(Tokens(argv))
    ensures ReportsFirstBadPair(Tokens(argv), r)
  {
    ghost var tokens := Tokens(argv);
    var flags := NoFlags;
    var i := 2;
    ghost var pairs := 0;
    while i < |argv|
      invariant 2 <= i && i == 2 + 2 * pairs
      invariant i == 2 || i <= |argv|
      invariant i - 2 <= |tokens|
      invariant PairsOkBelow(tokens, i - 2)
      invariant flags == FlagsUpTo(tokens, i - 2)
      decreases |argv| - i
    {
      ghost var n := i - 2;
      assert tokens[n] == argv[i];
      if argv[i] == InumFlag {
        i := i + 1;
        if i < |argv| {
          flags := flags.(shouldInode := true, inodeNum := Atoi(argv[i]));
          assert tokens[n + 1] == argv[i];
          assert flags == FlagsUpTo(tokens, n + 2);
        } else {
          r := Failed(MissingValue(InumFlag));
          FirstBadPair(tokens, n);
          return;
        }
      } else if argv[i] == NameFlag {
        i := i + 1;
        if i < |argv| {
          flags := flags.(shouldName := true, name := argv[i]);
          assert tokens[n + 1] == argv[i];
          assert flags == FlagsUpTo(tokens, n + 2);
        } else {
          r := Failed(MissingValue(NameFlag));
          FirstBadPair(tokens, n);
          return;
        }
      } else if argv[i] == SizeFlag {
        i := i + 1;
        if i < |argv| {
          var value := argv[i];
          var mode;
          if |value| > 0 && value[0] == '+' {
            mode := 1;
          } else if |value| > 0 && value[0] == '-' {
            mode := -1;
          } else if |value| > 0 && value[0] == '=' {
            mode := 0;
          } else {
            r := Failed(BadSizePrefix(value));
            FirstBadPair(tokens, n);
            return;
          }
          flags := flags.(shouldEquals := true, greaterThan := mode, size := Atoi(value[1..]));
          assert tokens[n + 1] == argv[i];
          assert flags == FlagsUpTo(tokens, n + 2);
        } else {
          r := Failed(MissingValue(SizeFlag));
          FirstBadPair(tokens, n);
          return;
        }
      } else if argv[i] == LinksFlag {
        i := i + 1;
        if i < |argv| {
          flags := flags.(shouldLinks := true, linksNum := Atoi(argv[i]));
          assert tokens[n + 1] == argv[i];
          assert flags == FlagsUpTo(tokens, n + 2);
        } else {
          r := Failed(MissingValue(LinksFlag));
          FirstBadPair(tokens, n);
          return;
        }
      } else if argv[i] == ExecFlag {
        i := i + 1;
        if i < |argv| {
          flags := flags.(shouldExecute := true, pathToExecutable := argv[i]);
          assert tokens[n + 1] == argv[i];
          assert flags == FlagsUpTo(tokens, n + 2);
        } else {
          r := Failed(MissingValue(ExecFlag));
          FirstBadPair(tokens, n);
          return;
        }
      } else {
        r := Failed(UndefinedToken(argv[i]));
        FirstBadPair(tokens, n);
        return;
      }
      PairsOkStep(tokens, n);
      i := i + 1;
      pairs := pairs + 1;
    }
    r := Parsed(flags);
    assert ReportsFirstBadPair(tokens, r);
  }
}
