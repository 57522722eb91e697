/**
 * The tests `dfs` applies to a regular file before reporting it (main.c, the
 * `isOk` block). Every test whose switch is on must pass; a file passes when
 * no switch is on.
 */
module Predicates {
  import opened Numerals
  import opened Options

  /** What `stat` reports about a regular file that the tests look at. */
  datatype Meta = Meta(size: int, nlink: nat)

  /** The four tests a file can be put to. `-exec` is an action, not a test. */
  datatype Test = ByName | ByInode | ByLinks | BySize

  /** The tests whose switch the configuration turns on. */
  function Enabled(flags: Flags): set<Test> {
    (if flags.shouldName then {ByName} else {})
    + (if flags.shouldInode then {ByInode} else {})
    + (if flags.shouldLinks then {ByLinks} else {})
    + (if flags.shouldEquals then {BySize} else {})
  }

  /**
   * The size test as the source writes it: a chain of three failing cases,
   * one per mode. A mode outside 1, 0 and -1 fails nothing.
   */
  function SizeOk(greaterThan: int, target: int, size: int): (ok: bool)
    ensures greaterThan == 1 ==> (ok <==> size >= target)
    ensures greaterThan == 0 ==> (ok <==> size == target)
    ensures greaterThan == -1 ==> (ok <==> size <= target)
    ensures greaterThan !in {1, 0, -1} ==> ok
  {
    if greaterThan == 1 && size < target then false
    else if greaterThan == 0 && target != size then false
    else if greaterThan == -1 && size > target then false
    else true
  }

  /** What passing one test means for a file named `name` with inode `ino` and status `meta`. */
  predicate Holds(t: Test, name: string, ino: nat, meta: Meta, flags: Flags) {
    match t
    case ByName => name == flags.name
    case ByInode => ino == flags.inodeNum
    case ByLinks => meta.nlink == flags.linksNum
    case BySize => SizeOk(flags.greaterThan, flags.size, meta.size)
  }

  /**
   * The `isOk` block: starting from true, each enabled test that fails
   * clears the result. The file matches exactly when it passes every enabled test.
   */
  function Matches(name: string, ino: nat, meta: Meta, flags: Flags): (ok: bool)
    ensures ok <==> forall t | t in Enabled(flags) :: Holds(t, name, ino, meta, flags)
  {
    var ok0 := true;
    var ok1 := if flags.shouldName && name != flags.name then false else ok0;
    var ok2 := if flags.shouldInode && flags.inodeNum != ino then false else ok1;
    var ok3 := if flags.shouldLinks && flags.linksNum != meta.nlink then false else ok2;
    var ok4 := if flags.shouldEquals && !SizeOk(flags.greaterThan, flags.size, meta.size) then false else ok3;
    assert ok4 <==> (
      && (ByName in Enabled(flags) ==> Holds(ByName, name, ino, meta, flags))
      && (ByInode in Enabled(flags) ==> Holds(ByInode, name, ino, meta, flags))
      && (ByLinks in Enabled(flags) ==> Holds(ByLinks, name, ino, meta, flags))
      && (BySize in Enabled(flags) ==> Holds(BySize, name, ino, meta, flags)));
    ok4
  }

  /** With no test switched on every regular file matches. */
  lemma NoTestsMatchAll(name: string, ino: nat, meta: Meta)
    ensures Matches(name, ino, meta, NoFlags)
  {
    assert Enabled(NoFlags) == {};
  }

  /** The targets of tests that are switched off play no part in the outcome. */
  lemma DisabledTargetsIgnored(name: string, ino: nat, meta: Meta, flags: Flags, other: Flags)
    requires Enabled(flags) == Enabled(other)
    requires flags.shouldName ==> flags.name == other.name
    requires flags.shouldInode ==> flags.inodeNum == other.inodeNum
    requires flags.shouldLinks ==> flags.linksNum == other.linksNum
    requires flags.shouldEquals ==> flags.greaterThan == other.greaterThan && flags.size == other.size
    ensures Matches(name, ino, meta, flags) == Matches(name, ino, meta, other)
  {
    forall t | t in Enabled(flags)
      ensures Holds(t, name, ino, meta, flags) == Holds(t, name, ino, meta, other)
    {
    }
  }

  /** The size modes are inclusive: a file exactly the target size passes in all three. */
  lemma SizeModesInclusive(target: int)
    ensures SizeOk(1, target, target) && SizeOk(0, target, target) && SizeOk(-1, target, target)
    ensures SizeOk(1, target, target + 1) && !SizeOk(1, target, target - 1)
    ensures SizeOk(-1, target, target - 1) && !SizeOk(-1, target, target + 1)
    ensures !SizeOk(0, target, target + 1) && !SizeOk(0, target, target - 1)
  {
  }

  /** On accepted arguments the last `-size` value, if any, starts with a mode character. */
  lemma {:induction false} LastSizeValueOk(tokens: seq<string>, n: nat)
    requires n % 2 == 0 && n <= |tokens| && PairsOkBelow(tokens, n)
    ensures LastValue(tokens, n, Size).Some? ==> SizeValueOk(LastValue(tokens, n, Size).value)
    decreases n
  {
    if n >= 2 {
      assert PairOk(tokens, n - 2);
      LastSizeValueOk(tokens, n - 2);
    }
  }

  /**
   * What the tests mean for a command line the parser accepts: a regular
   * file matches exactly when, for each test flag given, it passes the test
   * against the value of that flag's last occurrence.
   */
  lemma MatchesCommandLine(tokens: seq<string>, name: string, ino: nat, meta: Meta)
    requires ArgsValid(tokens)
    ensures
      var n := |tokens|;
      var byName, byInode, byLinks, bySize :=
        LastValue(tokens, n, Name), LastValue(tokens, n, Inum), LastValue(tokens, n, Links), LastValue(tokens, n, Size);
      Matches(name, ino, meta, FlagsFor(tokens)) <==>
        && (byName.Some? ==> name == byName.value)
        && (byInode.Some? ==> ino == Atoi(byInode.value))
        && (byLinks.Some? ==> meta.nlink == Atoi(byLinks.value))
        && (bySize.Some? ==> SizeValueOk(bySize.value)
                             && SizeOk(SizeMode(bySize.value), Atoi(bySize.value[1..]), meta.size))
  {
    FlagsForLastOccurrence(tokens);
    LastSizeValueOk(tokens, |tokens|);
  }
}
