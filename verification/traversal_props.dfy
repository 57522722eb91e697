/**
 * What the traversal of `dfs` guarantees, stated against the specification
 * functions of module `Traversal`: which paths it reports, that it reports each of
 * them once, that `-exec` runs exactly after each report, and that a failure
 * stays local to the entry or directory it concerns.
 */
module TraversalProperties {
  import opened Wrappers
  import opened Options
  import opened Predicates
  import opened Traversal

  // ---------------------------------------------------------------- sizes

  function Size(node: Node): nat
    decreases node, 2
  {
    match node
    case Directory(_, batches, _) => 1 + BatchesSize(batches)
    case _ => 1
  }

  function BatchesSize(batches: seq<Batch>): nat
    decreases batches, 1
  {
    if batches == [] then 0 else RecordsSize(batches[0].records) + BatchesSize(batches[1..])
  }

  function RecordsSize(records: seq<Dirent>): nat
    decreases records, 0
  {
    if records == [] then 0 else 1 + Size(records[0].node) + RecordsSize(records[1..])
  }

  lemma {:induction false} RecordsSizeAppend(a: seq<Dirent>, b: seq<Dirent>)
    ensures RecordsSize(a + b) == RecordsSize(a) + RecordsSize(b)
    decreases |a|
  {
    if a == [] {
      assert a + b == b;
    } else {
      assert (a + b)[1..] == a[1..] + b;
      RecordsSizeAppend(a[1..], b);
    }
  }

  lemma {:induction false} RecordsSizeBound(records: seq<Dirent>, d: Dirent)
    requires d in records
    ensures Size(d.node) < RecordsSize(records)
    decreases |records|
  {
    if records[0] != d {
      RecordsSizeBound(records[1..], d);
    }
  }

  // ------------------------------------------------- the records a directory yields

  /**
   * The records the traversal reads from a directory's batches: all of them,
   * up to the first empty batch, which ends the directory.
   */
  function ReadRecords(batches: seq<Batch>): seq<Dirent> {
    if batches == [] || batches[0].records == [] then []
    else batches[0].records + ReadRecords(batches[1..])
  }

  /** Whether every batch is read, that is, none of them is empty. */
  predicate ReadsAll(batches: seq<Batch>) {
    forall b | b in batches :: b.records != []
  }

  lemma {:induction false} ReadRecordsSize(batches: seq<Batch>)
    ensures RecordsSize(ReadRecords(batches)) <= BatchesSize(batches)
    decreases |batches|
  {
    if batches != [] && batches[0].records != [] {
      ReadRecordsSize(batches[1..]);
      RecordsSizeAppend(batches[0].records, ReadRecords(batches[1..]));
    }
  }

  /** The entries of a directory, in the order the traversal meets them. */
  function Entries(node: Node): (es: seq<Dirent>)
    requires node.Directory?
    ensures RecordsSize(es) < Size(node)
    ensures forall d | d in es :: Size(d.node) < Size(node)
  {
    var es := ReadRecords(node.batches);
    ReadRecordsSize(node.batches);
    forall d | d in es
      ensures Size(d.node) < Size(node)
    {
      RecordsSizeBound(es, d);
    }
    es
  }

  /** The diagnostic a directory ends with: a failing read after all its batches were read. */
  function Trailer(node: Node): seq<Event>
    requires node.Directory?
  {
    if node.readFails && ReadsAll(node.batches) then [ReadFailed] else []
  }

  lemma {:induction false} WalkRecordsAppend(path: string, flags: Flags, a: seq<Dirent>, b: seq<Dirent>)
    ensures WalkRecords(path, flags, a + b) == WalkRecords(path, flags, a) + WalkRecords(path, flags, b)
    decreases |a|
  {
    if a == [] {
      assert a + b == b;
    } else {
      assert (a + b)[1..] == a[1..] + b;
      WalkRecordsAppend(path, flags, a[1..], b);
    }
  }

  /** How the records are split into batches plays no part: only the records read and the trailer count. */
  lemma {:induction false} WalkBatchesFlat(path: string, flags: Flags, batches: seq<Batch>, readFails: bool)
    ensures WalkBatches(path, flags, batches, readFails)
         == WalkRecords(path, flags, ReadRecords(batches)) + (if readFails && ReadsAll(batches) then [ReadFailed] else [])
    decreases |batches|
  {
    if batches != [] && batches[0].records != [] {
      WalkBatchesFlat(path, flags, batches[1..], readFails);
      WalkRecordsAppend(path, flags, batches[0].records, ReadRecords(batches[1..]));
      ReadsAllStep(batches);
    }
  }

  lemma ReadsAllStep(batches: seq<Batch>)
    requires batches != [] && batches[0].records != []
    ensures ReadsAll(batches) <==> ReadsAll(batches[1..])
  {
    assert batches == [batches[0]] + batches[1..];
  }

  /** An opened directory yields the events of its entries, then its trailer. */
  lemma WalkDirectory(path: string, flags: Flags, node: Node)
    requires Opens(node)
    ensures Walk(path, flags, node) == WalkRecords(path, flags, Entries(node)) + Trailer(node)
  {
    WalkBatchesFlat(path, flags, node.batches, node.readFails);
  }

  /** An event of the records' walk comes from one of the records. */
  lemma {:induction false} InWalkRecords(path: string, flags: Flags, records: seq<Dirent>, e: Event) returns (d: Dirent)
    requires e in WalkRecords(path, flags, records)
    ensures d in records && e in Visit(path, flags, d)
    decreases |records|
  {
    if e in Visit(path, flags, records[0]) {
      d := records[0];
    } else {
      d := InWalkRecords(path, flags, records[1..], e);
    }
  }

  /** Every event of every record appears in the records' walk. */
  lemma {:induction false} VisitInWalkRecords(path: string, flags: Flags, records: seq<Dirent>, d: Dirent, e: Event)
    requires d in records && e in Visit(path, flags, d)
    ensures e in WalkRecords(path, flags, records)
    decreases |records|
  {
    if records[0] != d {
      VisitInWalkRecords(path, flags, records[1..], d, e);
    }
  }

  // ---------------------------------------------------------------- routes

  /**
   * `route` leads from the opened directory `node` through entries other
   * than `.` and `..`, each but the last an opened directory, each an entry
   * of the one before.
   */
  predicate IsRoute(node: Node, route: seq<Dirent>)
    decreases |route|
  {
    && route != []
    && Opens(node)
    && route[0] in Entries(node)
    && !IsDot(route[0].name)
    && (|route| > 1 ==> IsRoute(route[0].node, route[1..]))
  }

  /** The path of the end of `route`, starting from `path`. */
  function RoutePath(path: string, route: seq<Dirent>): string
    decreases |route|
  {
    if route == [] then path else RoutePath(JoinPath(path, route[0].name), route[1..])
  }

  /** A regular file whose status is available and that passes the enabled tests. */
  predicate Selected(flags: Flags, d: Dirent) {
    d.node.Regular? && d.node.stat.Some? && Matches(d.name, d.ino, d.node.stat.value, flags)
  }

  /** Every reported path is the path of a selected regular file at the end of a route. */
  lemma {:induction false} FoundHasRoute(path: string, flags: Flags, node: Node, p: string) returns (route: seq<Dirent>)
    requires Found(p) in Walk(path, flags, node)
    ensures IsRoute(node, route) && Selected(flags, route[|route| - 1]) && RoutePath(path, route) == p
    decreases Size(node)
  {
    WalkDirectory(path, flags, node);
    var d := InWalkRecords(path, flags, Entries(node), Found(p));
    var fp := JoinPath(path, d.name);
    match d.node
    case Regular(_) =>
      route := [d];
    case Directory(_, _, _) =>
      var sub := FoundHasRoute(fp, flags, d.node, p);
      route := [d] + sub;
      assert route[1..] == sub;
  }

  /** The selected regular file at the end of any route is reported, under the route's path. */
  lemma {:induction false} RouteIsFound(path: string, flags: Flags, node: Node, route: seq<Dirent>)
    requires IsRoute(node, route) && Selected(flags, route[|route| - 1])
    ensures Found(RoutePath(path, route)) in Walk(path, flags, node)
    decreases |route|
  {
    var d := route[0];
    var fp := JoinPath(path, d.name);
    WalkDirectory(path, flags, node);
    if |route| == 1 {
      assert Found(fp) in Visit(path, flags, d);
      VisitInWalkRecords(path, flags, Entries(node), d, Found(fp));
    } else {
      RouteIsFound(fp, flags, d.node, route[1..]);
      assert Found(RoutePath(path, route)) in Visit(path, flags, d);
      VisitInWalkRecords(path, flags, Entries(node), d, Found(RoutePath(path, route)));
    }
  }

  /** `dfs` reports exactly the paths of the selected regular files it can reach. */
  lemma FoundIffSelected(path: string, flags: Flags, node: Node, p: string)
    ensures Found(p) in Walk(path, flags, node)
        <==> exists route :: IsRoute(node, route) && Selected(flags, route[|route| - 1]) && RoutePath(path, route) == p
  {
    if Found(p) in Walk(path, flags, node) {
      var route := FoundHasRoute(path, flags, node, p);
    }
    forall route | IsRoute(node, route) && Selected(flags, route[|route| - 1]) && RoutePath(path, route) == p
      ensures Found(p) in Walk(path, flags, node)
    {
      RouteIsFound(path, flags, node, route);
    }
  }

  /** With no test switched on, every reachable regular file whose status can be read is reported. */
  lemma EveryFileWithoutTests(path: string, flags: Flags, node: Node, route: seq<Dirent>)
    requires Enabled(flags) == {}
    requires IsRoute(node, route) && route[|route| - 1].node.Regular? && route[|route| - 1].node.stat.Some?
    ensures Found(RoutePath(path, route)) in Walk(path, flags, node)
  {
    RouteIsFound(path, flags, node, route);
  }

  // ------------------------------------------------- each file reported once

  predicate NoSlash(name: string) {
    forall i | 0 <= i < |name| :: name[i] != '/'
  }

  predicate DistinctNames(records: seq<Dirent>) {
    forall i, j | 0 <= i < j < |records| :: records[i].name != records[j].name
  }

  /**
   * Directory contents as a file system keeps them: within each directory the
   * entries have distinct names, and no name holds a slash.
   */
  predicate WellFormed(node: Node)
    decreases Size(node)
  {
    node.Directory? ==>
      && DistinctNames(Entries(node))
      && forall d | d in Entries(node) :: NoSlash(d.name) && WellFormed(d.node)
  }

  /** The paths of the `Found` events, in order. */
  function FoundPaths(events: seq<Event>): seq<string> {
    if events == [] then []
    else (if events[0].Found? then [events[0].path] else []) + FoundPaths(events[1..])
  }

  lemma {:induction false} FoundPathsAppend(a: seq<Event>, b: seq<Event>)
    ensures FoundPaths(a + b) == FoundPaths(a) + FoundPaths(b)
    decreases |a|
  {
    if a == [] {
      assert a + b == b;
    } else {
      assert (a + b)[1..] == a[1..] + b;
      FoundPathsAppend(a[1..], b);
    }
  }

  lemma {:induction false} InFoundPaths(events: seq<Event>, p: string)
    ensures p in FoundPaths(events) <==> Found(p) in events
    decreases |events|
  {
    if events != [] {
      InFoundPaths(events[1..], p);
      assert events == [events[0]] + events[1..];
    }
  }

  predicate Distinct(s: seq<string>) {
    forall i, j | 0 <= i < j < |s| :: s[i] != s[j]
  }

  lemma DistinctAppend(a: seq<string>, b: seq<string>)
    requires Distinct(a) && Distinct(b)
    requires forall i, j | 0 <= i < |a| && 0 <= j < |b| :: a[i] != b[j]
    ensures Distinct(a + b)
  {
    forall i, j | 0 <= i < j < |a + b|
      ensures (a + b)[i] != (a + b)[j]
    {
      if j < |a| {
        assert (a + b)[i] == a[i] && (a + b)[j] == a[j];
      } else if i < |a| {
        assert (a + b)[i] == a[i] && (a + b)[j] == b[j - |a|];
      } else {
        assert (a + b)[i] == b[i - |a|] && (a + b)[j] == b[j - |a|];
      }
    }
  }

  /** A string of distinct elements holds each of its elements exactly once. */
  lemma {:induction false} DistinctOnce(s: seq<string>, x: string)
    requires Distinct(s) && x in s
    ensures multiset(s)[x] == 1
    decreases |s|
  {
    assert s == [s[0]] + s[1..];
    if s[0] == x {
      assert x !in s[1..] by {
        forall j | 0 <= j < |s[1..]|
          ensures s[1..][j] != x
        {
          assert s[1..][j] == s[j + 1];
        }
      }
    } else {
      DistinctOnce(s[1..], x);
    }
  }

  /** The first component of a relative path: everything before its first slash. */
  function Component(s: string): string {
    if s == [] || s[0] == '/' then [] else [s[0]] + Component(s[1..])
  }

  lemma {:induction false} ComponentOf(name: string, rest: string)
    requires NoSlash(name) && (rest == [] || rest[0] == '/')
    ensures Component(name + rest) == name
    decreases |name|
  {
    if name == [] {
      assert name + rest == rest;
    } else {
      assert (name + rest)[1..] == name[1..] + rest;
      ComponentOf(name[1..], rest);
    }
  }

  /** `p` names something below the directory `q`. */
  predicate Under(p: string, q: string) {
    |q| < |p| && p[..|q| + 1] == q + "/"
  }

  lemma {:induction false} RoutePathUnder(q: string, route: seq<Dirent>)
    requires route != []
    ensures Under(RoutePath(q, route), q)
    decreases |route|
  {
    var q' := JoinPath(q, route[0].name);
    if |route| > 1 {
      RoutePathUnder(q', route[1..]);
      var p := RoutePath(q, route);
      assert p[..|q| + 1] == p[..|q'| + 1][..|q| + 1];
    }
  }

  /** A path reported for a record lies below the directory, and its first component there is the record's name. */
  lemma FoundInVisit(path: string, flags: Flags, d: Dirent, p: string)
    requires Found(p) in Visit(path, flags, d) && NoSlash(d.name)
    ensures Under(p, path) && Component(p[|path| + 1..]) == d.name
  {
    var fp := JoinPath(path, d.name);
    if d.node.Regular? {
      assert p == fp && p[|path| + 1..] == d.name + [];
      ComponentOf(d.name, []);
    } else {
      var route := FoundHasRoute(fp, flags, d.node, p);
      RoutePathUnder(fp, route);
      assert p[|path| + 1..] == d.name + p[|fp|..];
      ComponentOf(d.name, p[|fp|..]);
      assert p[..|path| + 1] == p[..|fp| + 1][..|path| + 1];
    }
  }

  /** A path reported for a run of records has one of their names as its first component below the directory. */
  lemma FoundComponent(path: string, flags: Flags, records: seq<Dirent>, p: string) returns (j: nat)
    requires Found(p) in WalkRecords(path, flags, records)
    requires forall d | d in records :: NoSlash(d.name)
    ensures j < |records| && Under(p, path) && Component(p[|path| + 1..]) == records[j].name
  {
    var d := InWalkRecords(path, flags, records, Found(p));
    FoundInVisit(path, flags, d, p);
    j :| 0 <= j < |records| && records[j] == d;
  }

  /** In a well-formed tree no path is reported twice. */
  lemma {:induction false} WalkDistinct(path: string, flags: Flags, node: Node)
    requires WellFormed(node)
    ensures Distinct(FoundPaths(Walk(path, flags, node)))
    decreases Size(node)
  {
    if Opens(node) {
      WalkDirectory(path, flags, node);
      FoundPathsAppend(WalkRecords(path, flags, Entries(node)), Trailer(node));
      WalkRecordsDistinct(path, flags, Entries(node));
    }
  }

  lemma {:induction false} WalkRecordsDistinct(path: string, flags: Flags, records: seq<Dirent>)
    requires DistinctNames(records)
    requires forall d | d in records :: NoSlash(d.name) && WellFormed(d.node)
    ensures Distinct(FoundPaths(WalkRecords(path, flags, records)))
    decreases RecordsSize(records)
  {
    if records != [] {
      var d, rest := records[0], records[1..];
      var here, there := Visit(path, flags, d), WalkRecords(path, flags, rest);
      assert DistinctNames(rest) by {
        forall i, j | 0 <= i < j < |rest|
          ensures rest[i].name != rest[j].name
        {
          assert rest[i] == records[i + 1] && rest[j] == records[j + 1];
        }
      }
      WalkRecordsDistinct(path, flags, rest);
      if !IsDot(d.name) && d.node.Directory? {
        WalkDistinct(JoinPath(path, d.name), flags, d.node);
      } else if here != [] {
        assert here[1..] == [] || here[1..] == [here[1]];
        assert FoundPaths(here[1..]) == [];
      }
      forall i, j | 0 <= i < |FoundPaths(here)| && 0 <= j < |FoundPaths(there)|
        ensures FoundPaths(here)[i] != FoundPaths(there)[j]
      {
        var p, q := FoundPaths(here)[i], FoundPaths(there)[j];
        InFoundPaths(here, p);
        InFoundPaths(there, q);
        FoundInVisit(path, flags, d, p);
        var k := FoundComponent(path, flags, rest, q);
        assert records[k + 1] == rest[k];
      }
      DistinctAppend(FoundPaths(here), FoundPaths(there));
      FoundPathsAppend(here, there);
    }
  }

  /** In a well-formed tree every selected regular file that can be reached is reported exactly once. */
  lemma ReachableFileFoundOnce(path: string, flags: Flags, node: Node, route: seq<Dirent>)
    requires WellFormed(node)
    requires IsRoute(node, route) && Selected(flags, route[|route| - 1])
    ensures multiset(FoundPaths(Walk(path, flags, node)))[RoutePath(path, route)] == 1
  {
    var events := Walk(path, flags, node);
    RouteIsFound(path, flags, node, route);
    InFoundPaths(events, RoutePath(path, route));
    WalkDistinct(path, flags, node);
    DistinctOnce(FoundPaths(events), RoutePath(path, route));
  }

  // ------------------------------------------------- -exec

  /**
   * Every spawned program is the `-exec` program run on the path reported
   * just before it; when `-exec` is on, every report is followed by that run,
   * and when it is off nothing is spawned.
   */
  predicate ExecPaired(flags: Flags, events: seq<Event>) {
    && (forall i | 0 <= i < |events| && events[i].Spawned? ::
          && flags.shouldExecute
          && 0 < i && events[i - 1].Found?
          && events[i].argv == [flags.pathToExecutable, events[i - 1].path])
    && (forall i | 0 <= i < |events| && events[i].Found? && flags.shouldExecute ::
          i + 1 < |events| && events[i + 1] == Spawned([flags.pathToExecutable, events[i].path]))
  }

  lemma ExecPairedAppend(flags: Flags, a: seq<Event>, b: seq<Event>)
    requires ExecPaired(flags, a) && ExecPaired(flags, b)
    ensures ExecPaired(flags, a + b)
  {
    var ab := a + b;
    forall i | 0 <= i < |ab| && ab[i].Spawned?
      ensures flags.shouldExecute && 0 < i && ab[i - 1].Found? && ab[i].argv == [flags.pathToExecutable, ab[i - 1].path]
    {
      if i < |a| {
        assert ab[i] == a[i] && ab[i - 1] == a[i - 1];
      } else {
        assert ab[i] == b[i - |a|];
        assert ab[i - 1] == b[i - |a| - 1];
      }
    }
    forall i | 0 <= i < |ab| && ab[i].Found? && flags.shouldExecute
      ensures i + 1 < |ab| && ab[i + 1] == Spawned([flags.pathToExecutable, ab[i].path])
    {
      if i < |a| {
        assert ab[i] == a[i] && ab[i + 1] == a[i + 1];
      } else {
        assert ab[i] == b[i - |a|] && ab[i + 1] == b[i - |a| + 1];
      }
    }
  }

  /** The traversal runs the `-exec` program right after each report, and only then. */
  lemma {:induction false} WalkExecPaired(path: string, flags: Flags, node: Node)
    ensures ExecPaired(flags, Walk(path, flags, node))
    decreases Size(node)
  {
    if Opens(node) {
      WalkDirectory(path, flags, node);
      WalkRecordsExecPaired(path, flags, Entries(node));
      ExecPairedAppend(flags, WalkRecords(path, flags, Entries(node)), Trailer(node));
    }
  }

  lemma {:induction false} WalkRecordsExecPaired(path: string, flags: Flags, records: seq<Dirent>)
    ensures ExecPaired(flags, WalkRecords(path, flags, records))
    decreases RecordsSize(records)
  {
    if records != [] {
      var d := records[0];
      if !IsDot(d.name) && d.node.Directory? {
        WalkExecPaired(JoinPath(path, d.name), flags, d.node);
      }
      WalkRecordsExecPaired(path, flags, records[1..]);
      ExecPairedAppend(flags, Visit(path, flags, d), WalkRecords(path, flags, records[1..]));
    }
  }

  // ------------------------------------------------- failures stay local

  /**
   * A record whose file cannot be stat'ed, or whose directory cannot be
   * opened, yields only its diagnostic; the records around it are walked as
   * if it were not there.
   */
  lemma FailureIsLocal(path: string, flags: Flags, before: seq<Dirent>, d: Dirent, after: seq<Dirent>)
    requires !IsDot(d.name)
    requires d.node == Regular(None) || (d.node.Directory? && d.node.openFails)
    ensures WalkRecords(path, flags, before + [d] + after)
         == WalkRecords(path, flags, before)
          + [if d.node.Regular? then StatFailed else OpenFailed(OpenLabel(JoinPath(path, d.name)))]
          + WalkRecords(path, flags, after)
  {
    WalkRecordsAppend(path, flags, before + [d], after);
    WalkRecordsAppend(path, flags, before, [d]);
    assert [d][1..] == [];
    assert WalkRecords(path, flags, [d]) == Visit(path, flags, d);
  }

  /** `.` and `..` yield nothing: the walk is the same without them. */
  lemma DotsIgnored(path: string, flags: Flags, before: seq<Dirent>, d: Dirent, after: seq<Dirent>)
    requires IsDot(d.name)
    ensures WalkRecords(path, flags, before + [d] + after) == WalkRecords(path, flags, before + after)
  {
    WalkRecordsAppend(path, flags, before + [d], after);
    WalkRecordsAppend(path, flags, before, [d]);
    WalkRecordsAppend(path, flags, before, after);
    assert [d][1..] == [];
  }

  /** A read that fails after the last batch still lets every entry read before it be walked. */
  lemma ReadFailureKeepsEntries(path: string, flags: Flags, node: Node)
    requires Opens(node) && node.readFails && ReadsAll(node.batches)
    ensures Walk(path, flags, node) == WalkRecords(path, flags, Entries(node)) + [ReadFailed]
  {
    WalkDirectory(path, flags, node);
  }
}
