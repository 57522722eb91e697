# A verified model of a minimal `find`

The program is a small `find`: `find <root> [-inum N] [-name NAME] [-size (+|-|=)N] [-nlinks N] [-exec PROGRAM]`.
It reads the command line and then walks the directory tree below `<root>` depth first. Directories are read with
`getdents64` into a 1024-byte buffer. Each regular file it meets is checked against the tests the
command line switches on. The path of each file that passes is printed, and the `-exec` program,
if given, is run on that path.

The model covers the whole of `main.c` except its system calls:

- `numerals.dfy` (module `Numerals`): `atoi`/`atoll` on unbounded integers. They skip leading white space,
  read an optional sign, then read digits up to the first non-digit.
- `options.dfy` (module `Options`): `struct flags` and `parse`. `Parse` is a `while` loop over `argv` from
  index 2, as in the source. Two specification functions describe what it accepts and what it builds:
  - `ArgsValid`: the tokens after the root are flag/value pairs, and a `-size` value starts with `+`, `-` or `=`.
  - `FlagsFor`: the configuration the pairs build, one after the other.
- `predicates.dfy` (module `Predicates`): the `isOk` block. `Matches` holds exactly when every enabled test holds.
- `traversal.dfy` (module `Traversal`): `dfs` over an abstract file system tree.
  - A directory hands out batches of records, the way `getdents64` fills the buffer. It may be marked as failing
    to open, or as failing to read after its last batch. A regular file may be marked as failing `stat`.
  - The observable behaviour is a sequence of `Event`s: diagnostics, reported paths and spawned programs.
  - `Dfs` has the source's two loops: the refill loop, and the record loop that advances a byte offset by
    each record's `reclen` (`WalkBuffer`). The body for one record is `ProcessRecord`, and it accumulates
    `isOk` step by step.
  - All three methods are proved equal to the specification functions `Walk`, `WalkRecords` and `Visit`.
- `traversal_props.dfy` (module `TraversalProperties`): what the traversal guarantees.
  - It reports exactly the matching regular files reachable through openable directories, and in a tree
    with distinct, slash-free entry names it reports each of them exactly once.
  - `-exec` runs right after each report and at no other time.
  - A failing entry or subdirectory yields only its diagnostic and does not affect its siblings.
- `find.dfy` (module `Find`): `main`, which handles the usage check, `-h`/`--help`, parse failure and the search.
- `wrappers.dfy`: the `Option` type.

Three details of the code that the model follows:

- The inode test compares the directory entry's `d_ino`, not the inode `stat` reports (main.c:168-172).
- A failed `getdents64` prints only `getdents`, with no path (main.c:126-131).
- A `-size` value with an unexpected first character is rejected. If the value is missing, the error is a
  missing value, not a bad prefix (main.c:62-81).

## Model

| member | source | states |
|---|---|---|
| Numerals.ReadDigitsStops | main.c:47 | conversion stops at the first non-digit: text after the digits never changes the value |
| Numerals.SkipSpacesPrefix | main.c:47 | leading white space is skipped up to the first other character |
| Numerals.ReadShowNat | main.c:85 | reading the decimal spelling of a natural number gives that number back |
| Numerals.AtoiShowInt | main.c:47 | `atoi` of the spelling of any integer (sign included), followed by any non-digit text, is that integer |
| Numerals.AtoiReadsLeadingNumber | main.c:76 | the same with any leading white space: `atoll(ws + ShowInt(n) + rest) == n` |
| Options.Parse | main.c:37-107 | the scan succeeds iff the tokens after the root are flag/value pairs whose `-size` values start with `+`, `-` or `=`; it then returns the configuration `FlagsFor` builds, and otherwise it reports the first unacceptable pair (unknown token, flag without value, bad size prefix) |
| Options.InumFromLastOccurrence | main.c:44-52 | `should_inode` is on iff `-inum` occurs, and `inode_num` is `atoi` of its last value |
| Options.NameFromLastOccurrence | main.c:53-61 | `should_name` is on iff `-name` occurs, and `name` is its last value |
| Options.SizeFromLastOccurrence | main.c:62-81 | `should_equals` is on iff `-size` occurs; the last value's first character gives the mode (`+` 1, `-` -1, `=` 0), and `atoll` of the rest gives the target |
| Options.LinksFromLastOccurrence | main.c:82-90 | `should_links` is on iff `-nlinks` occurs, and `links_num` is `atoi` of its last value |
| Options.ExecFromLastOccurrence | main.c:91-99 | `should_execute` is on iff `-exec` occurs, and the program is its last value |
| Options.FlagsForLastOccurrence | main.c:43-105 | the configuration built pair by pair agrees, field by field, with the last occurrence of each flag |
| Predicates.SizeOk | main.c:178-185 | mode 1 passes iff size >= target, mode 0 iff size == target, mode -1 iff size <= target; any other mode passes |
| Predicates.Matches | main.c:161-186 | a file passes iff it passes every enabled test: exact name equality, `d_ino` equal to the inode target, link count equal to the target, and the size test |
| Predicates.NoTestsMatchAll | main.c:161-187 | with no test switched on, every file passes |
| Predicates.DisabledTargetsIgnored | main.c:163-186 | the targets of tests that are switched off do not affect the outcome |
| Predicates.SizeModesInclusive | main.c:178-185 | all three modes are inclusive: a file of exactly the target size passes each of them; one byte more passes only mode 1, one byte less only mode -1 |
| Predicates.LastSizeValueOk | main.c:65-74 | on accepted arguments, the last `-size` value starts with a mode character |
| Predicates.MatchesCommandLine | main.c:161-186 | on accepted arguments, a file matches iff, for each test flag given, it passes that test against the flag's last value |
| Traversal.JoinPath | main.c:145-148 | the child path is the path, `/` and the name; the buffer of length `strlen(path) + strlen(name) + 2` holds it and its NUL exactly |
| Traversal.OpenLabel | main.c:112-115 | the `perror` label is `open ` and the path; the buffer of length `strlen(path) + 6` holds it and its NUL exactly |
| Traversal.Rez | main.c:124-135 | the byte count of a batch is 0 exactly when the batch holds no record |
| Traversal.RecordAt | main.c:138 | the record at a byte offset inside the buffer is one of the buffer's records |
| Traversal.RecordAtBoundary | main.c:137-138 | at the offset where the records before the k-th end, the loop reads the k-th record, and that offset is inside the buffer |
| Traversal.RezSnoc | main.c:212 | advancing the offset by a record's `d_reclen` moves it to the start of the next record |
| Traversal.Dfs | main.c:109-218 | the events of the traversal are `Walk`: an open failure, or the events of the batches until an empty one, then a read failure if the directory fails to read |
| Traversal.WalkBuffer | main.c:137-213 | the record loop visits the records at offsets 0, r0, r0+r1, ... while the offset is below the byte count, so every record is visited once and in order |
| Traversal.ProcessRecord | main.c:140-211 | one record: `.`/`..` yield nothing; a regular file yields a stat failure, or its report and the `-exec` run when it passes the tests; a directory yields its traversal; anything else yields nothing |
| TraversalProperties.WalkBatchesFlat | main.c:123-135 | how the records are split into batches does not matter: the events are those of the records read, then the read failure if every batch was read |
| TraversalProperties.WalkDirectory | main.c:109-218 | an opened directory yields the events of its entries and then its trailing diagnostic |
| TraversalProperties.FoundHasRoute | main.c:140-210 | every reported path is the path of a selected regular file at the end of a route through opened directories, skipping `.` and `..` |
| TraversalProperties.RouteIsFound | main.c:140-210 | the selected file at the end of every such route is reported under the route's path |
| TraversalProperties.FoundIffSelected | main.c:109-218 | a path is reported iff it is the path of a reachable regular file that passes the tests |
| TraversalProperties.EveryFileWithoutTests | main.c:161-188 | with no test switched on, every reachable regular file whose `stat` succeeds is reported |
| TraversalProperties.WalkDistinct | main.c:137-213 | in a tree with distinct, slash-free names per directory, no path is reported twice |
| TraversalProperties.ReachableFileFoundOnce | main.c:137-213 | in such a tree, every reachable selected regular file is reported exactly once |
| TraversalProperties.WalkExecPaired | main.c:187-206 | each spawned run is `[program, path]` for the path reported just before it; with `-exec` on, every report is followed by its run; with it off, nothing is spawned |
| TraversalProperties.FailureIsLocal | main.c:150-160 | an entry that fails `stat`, or a subdirectory that fails to open, yields only its diagnostic; the records around it are walked as if it were absent |
| TraversalProperties.DotsIgnored | main.c:140-143 | `.` and `..` yield nothing: the walk is the same without them |
| TraversalProperties.ReadFailureKeepsEntries | main.c:124-131 | a read failure after the last batch keeps every entry read before it and adds one diagnostic |
| Find.Run | main.c:221-250 | fewer than two arguments: usage, status 1. `-h`/`--help` as root: help, status 0. Rejected arguments: the first bad pair's diagnostic, status 1, no traversal. Otherwise: status 0 and the traversal of the root with the parsed configuration |
| Find.BareCommandListsEverything | main.c:241-247 | `find <root>` alone accepts its arguments and reports every reachable regular file whose `stat` succeeds |

## Left out

- System calls are not modelled as I/O. `open`, `getdents64`, `stat` and `close` become lookups in the abstract
  tree (`Node`): a failure flag on a directory, an optional status on a regular file, and a read failure after a
  directory's last batch. A read that fails after some batches is covered by this too, since the source never reads
  again after a failure: the directory's batches stop there and its read-failure flag is set. The `errno` values are
  not modelled.
- The root is given to `Find.Run` as the tree that `argv[1]` names. How the operating system resolves that path is not modelled.
- `fork`, `execve` and `waitpid` are reduced to one `Spawned([program, path])` event per run. The failure of any
  of them, the empty environment and the waiting are not modelled (process control).
- The text of `printf` and `perror` is not modelled. The usage and help texts become `UsageShown` and `HelpShown`,
  parse diagnostics become `ParseError` values, and system-call diagnostics become events without the `errno` text.
- `malloc`/`free` and the byte layout of `struct linux_dirent64` are not modelled. Records carry their inode
  number, length, name and the object they name; `d_type` is the kind of that object.
- The 1024-byte buffer size is not enforced on batches.
- Record lengths are positive. A zero `d_reclen` from the kernel would make the source loop forever.
- Numerals.AtoiShowInt: `atoi`/`atoll` are modelled on unbounded integers. Overflow of `int` and `long long`,
  which is undefined behaviour in C, is not modelled.
- Predicates.Matches: the inode and link-count targets are compared as mathematical integers. In C a negative
  `-inum` or `-nlinks` target is converted to an unsigned 64-bit value before the comparison, so it could equal
  an inode or link count near 2^64. The model never matches a negative target.
- Options.Parse: in the source, each `should_*` switch is set before its value is checked, and the other targets
  stay uninitialised. The model sets a switch and its target together and starts from zero or empty targets.
  The difference is never observable: a failed parse stops the program, and `DisabledTargetsIgnored` shows
  that the targets of switched-off tests are never read.
- The tree is finite, like every Dafny datatype value. The source does not follow symbolic links, so it cannot
  loop either. Changes to the file system during the traversal are not modelled.
