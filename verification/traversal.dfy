/**
 * The depth-first traversal `dfs` of main.c.
 *
 * The file system is an abstract tree. A directory hands out its entries the
 * way `getdents64` does: one batch of records per call, each record taking
 * `reclen` bytes of the buffer, then 0 at the end of the directory, or -1
 * when reading fails. The traversal's observable behaviour is the sequence of
 * `Event`s it produces: diagnostics, reported paths and spawned programs.
 */
module Traversal {
  import opened Wrappers
  import opened Options
  import opened Predicates

  /** A record length: every record occupies at least one byte of the buffer. */
  type Reclen = n: int | 0 < n witness 1

  /**
   * A file system object as the traversal meets it. Which constructor a
   * node has is its `d_type`: directories and regular files are followed,
   * everything else (links, devices, unknown types) is skipped.
   */
  datatype Node =
    | Directory(openFails: bool, batches: seq<Batch>, readFails: bool)
    | Regular(stat: Option<Meta>)   // `None`: `stat` fails on it
    | Other

  /** What one successful `getdents64` call puts in the buffer. */
  datatype Batch = Batch(records: seq<Dirent>)

  /** One directory record: inode number, record length, name and the object it names. */
  datatype Dirent = Dirent(ino: nat, reclen: Reclen, name: string, node: Node)

  /** What the traversal makes observable, in order. */
  datatype Event =
    | OpenFailed(message: string)     // `perror("open <path>")`
    | ReadFailed                      // `perror("getdents")`
    | StatFailed                      // `perror("stat")`
    | Found(path: string)             // the path printed for a matching file
    | Spawned(argv: seq<string>)      // the program run on a matching file, with its arguments

  predicate IsDot(name: string) {
    name == "." || name == ".."
  }

  /** Whether `open(path, O_RDONLY | O_DIRECTORY)` succeeds on the node. */
  predicate Opens(node: Node) {
    node.Directory? && !node.openFails
  }

  /**
   * The path of an entry: the directory's path, a slash and the entry's name.
   * The buffer the source allocates for it, two bytes longer than the two
   * parts, holds it and its terminating NUL exactly.
   */
  function JoinPath(path: string, name: string): (fp: string)
    ensures |fp| + 1 == |path| + |name| + 2
    ensures fp[..|path|] == path && fp[|path|] == '/' && fp[|path| + 1..] == name
  {
    path + "/" + name
  }

  /**
   * The label `perror` prints when a directory cannot be opened. The buffer
   * the source allocates for it, six bytes longer than the path, holds it and
   * its terminating NUL exactly.
   */
  function OpenLabel(path: string): (message: string)
    ensures |message| + 1 == |path| + 6
    ensures message[..5] == "open " && message[5..] == path
  {
    "open " + path
  }

  /** The number of buffer bytes a run of records occupies. It is 0 only for no records. */
  function Rez(records: seq<Dirent>): (n: nat)
    ensures n == 0 <==> records == []
  {
    if records == [] then 0 else records[0].reclen + Rez(records[1..])
  }

  lemma {:induction false} RezAppend(a: seq<Dirent>, b: seq<Dirent>)
    ensures Rez(a + b) == Rez(a) + Rez(b)
    decreases |a|
  {
    if a != [] {
      assert (a + b)[1..] == a[1..] + b;
      RezAppend(a[1..], b);
    } else {
      assert a + b == b;
    }
  }

  /** The `k`-th record ends `reclen` bytes after the records before it. */
  lemma RezSnoc(records: seq<Dirent>, k: nat)
    requires k < |records|
    ensures Rez(records[..k + 1]) == Rez(records[..k]) + records[k].reclen
  {
    assert records[..k + 1] == records[..k] + [records[k]];
    RezAppend(records[..k], [records[k]]);
    assert Rez([records[k]]) == records[k].reclen;
  }

  /** The records before the `k`-th end strictly inside the buffer. */
  lemma RezBelow(records: seq<Dirent>, k: nat)
    requires k < |records|
    ensures Rez(records[..k]) < Rez(records)
  {
    assert records == records[..k] + records[k..];
    RezAppend(records[..k], records[k..]);
  }

  /** The record that covers byte `offset` of the buffer. */
  function RecordAt(records: seq<Dirent>, offset: int): (d: Dirent)
    requires 0 <= offset < Rez(records)
    ensures d in records
  {
    if offset < records[0].reclen then records[0] else RecordAt(records[1..], offset - records[0].reclen)
  }

  /** Reading the buffer at the offset where the `k`-th record starts yields that record. */
  lemma {:induction false} RecordAtBoundary(records: seq<Dirent>, k: nat)
    requires k < |records|
    ensures Rez(records[..k]) < Rez(records)
    ensures RecordAt(records, Rez(records[..k])) == records[k]
    decreases k
  {
    RezBelow(records, k);
    if k > 0 {
      assert records[..k][1..] == records[1..][..k - 1];
      RecordAtBoundary(records[1..], k - 1);
    }
  }

  /** One `getdents64` call on an opened directory, the `calls`-th: the byte count and the records. */
  function GetDents(node: Node, calls: nat): (int, seq<Dirent>)
    requires node.Directory?
  {
    if calls < |node.batches| then (Rez(node.batches[calls].records) as int, node.batches[calls].records)
    else if node.readFails then (-1, [])
    else (0, [])
  }

  /** The events of traversing `node` under `path`. */
  function Walk(path: string, flags: Flags, node: Node): seq<Event>
    decreases node, 2
  {
    if !Opens(node) then [OpenFailed(OpenLabel(path))]
    else WalkBatches(path, flags, node.batches, node.readFails)
  }

  /**
   * The events of the remaining batches of an opened directory. An empty
   * batch ends the directory; after the last batch, a failing read reports
   * and ends it.
   */
  function WalkBatches(path: string, flags: Flags, batches: seq<Batch>, readFails: bool): seq<Event>
    decreases batches, 1
  {
    if batches == [] then (if readFails then [ReadFailed] else [])
    else if batches[0].records == [] then []
    else WalkRecords(path, flags, batches[0].records) + WalkBatches(path, flags, batches[1..], readFails)
  }

  /** The events of a run of records, one after the other. */
  function WalkRecords(path: string, flags: Flags, records: seq<Dirent>): seq<Event>
    decreases records, 0
  {
    if records == [] then []
    else Visit(path, flags, records[0]) + WalkRecords(path, flags, records[1..])
  }

  /** The events of one record of the directory at `path`. */
  function Visit(path: string, flags: Flags, d: Dirent): seq<Event>
    decreases d, 0
  {
    if IsDot(d.name) then []
    else
      var fp := JoinPath(path, d.name);
      match d.node
      case Regular(None) => [StatFailed]
      case Regular(Some(meta)) =>
        if !Matches(d.name, d.ino, meta, flags) then []
        else [Found(fp)] + (if flags.shouldExecute then [Spawned([flags.pathToExecutable, fp])] else [])
      case Directory(_, _, _) => Walk(fp, flags, d.node)
      case Other => []
  }

  /**
   * `dfs`: opens the directory, refills the buffer until the directory is
   * exhausted or reading fails, and walks each buffer record by record by
   * byte offset, skipping `.` and `..`, reporting matching regular files and
   * descending into subdirectories.
   */
  method Dfs(path: string, flags: Flags, node: Node) returns (events: seq<Event>)
    ensures events == Walk(path, flags, node)
    decreases node
  {
    if !Opens(node) {
      return [OpenFailed(OpenLabel(path))];
    }
    ghost var whole := Walk(path, flags, node);
    events := [];
    var calls := 0;
    while true
      invariant 0 <= calls <= |node.batches|
      invariant events + WalkBatches(path, flags, node.batches[calls..], node.readFails) == whole
      decreases |node.batches| - calls
    {
      var rez, buf := GetDents(node, calls).0, GetDents(node, calls).1;
      if rez == -1 {
        events := events + [ReadFailed];
        return;
      }
      if rez == 0 {
        break;
      }
      assert node.batches[calls..][1..] == node.batches[calls + 1..];
      assert buf == node.batches[calls].records;
      calls := calls + 1;
      var out := WalkBuffer(path, flags, buf, rez);
      events := events + out;
    }
  }

  /**
   * The record loop of `dfs` over one filled buffer holding `rez` bytes: the
   * offset `i` starts at 0 and advances by each record's `reclen` until it
   * reaches `rez`.
   */
  method WalkBuffer(path: string, flags: Flags, buf: seq<Dirent>, rez: int) returns (events: seq<Event>)
    requires rez == Rez(buf)
    ensures events == WalkRecords(path, flags, buf)
    decreases buf
  {
    events := [];
    var i := 0;
    ghost var k := 0;
    while i < rez
      invariant 0 <= k <= |buf| && i == Rez(buf[..k])
      invariant events + WalkRecords(path, flags, buf[k..]) == WalkRecords(path, flags, buf)
      decreases rez - i
    {
      assert buf[..|buf|] == buf;
      RecordAtBoundary(buf, k);
      RezSnoc(buf, k);
      var d := RecordAt(buf, i);
      assert buf[k..][1..] == buf[k + 1..];
      assert d == buf[k] && d in buf;
      var out := ProcessRecord(path, flags, d);
      events := events + out;
      i := i + d.reclen;
      k := k + 1;
    }
    if k < |buf| {
      RezBelow(buf, k);
    }
    assert buf[k..] == [];
  }

  /**
   * The body of the record loop of `dfs` for one record: `.` and `..` are
   * skipped, a regular file is stat'ed, put to the enabled tests and reported
   * (and handed to the program of `-exec`) when it passes them all, and a
   * subdirectory is traversed. The source's `continue`s are the early returns.
   */
  method ProcessRecord(path: string, flags: Flags, d: Dirent) returns (out: seq<Event>)
    ensures out == Visit(path, flags, d)
    decreases d
  {
    out := [];
    if IsDot(d.name) {
      return;
    }
    var fp := JoinPath(path, d.name);
    if d.node.Regular? {
      var st := d.node.stat;
      if st.None? {
        out := [StatFailed];
        return;
      }
      var isOk := true;
      if flags.shouldName {
        if d.name != flags.name {
          isOk := false;
        }
      }
      if flags.shouldInode {
        if flags.inodeNum != d.ino {
          isOk := false;
        }
      }
      if flags.shouldLinks {
        if flags.linksNum != st.value.nlink {
          isOk := false;
        }
      }
      if flags.shouldEquals {
        if flags.greaterThan == 1 && st.value.size < flags.size {
          isOk := false;
        } else if flags.greaterThan == 0 && flags.size != st.value.size {
          isOk := false;
        } else if flags.greaterThan == -1 && st.value.size > flags.size {
          isOk := false;
        }
      }
      if isOk {
        out := [Found(fp)];
        if flags.shouldExecute {
          out := out + [Spawned([flags.pathToExecutable, fp])];
        }
      }
    } else if d.node.Directory? {
      out := Dfs(fp, flags, d.node);
    }
  }
}
