# daily-standup-cli: project naming and commit accumulation

The tool walks a directory tree, runs `git log` in every `.git` directory
it finds (filtered by author and an "after" time), decodes the output as a
stream of `<entry>` records and writes the collected commits to
`standup.json`. This project models the logic between those platform calls:

- **Project naming** (`getParentDir`): a repository's project name is the
  second-to-last `/`-separated segment of its `.git` path, or `""` when the
  path has a single segment. Module `Paths` gives `strings.Split` as a
  function (`Split`, with its inverse `Join`) and `ParentDir` on top of it.
- **Commit accumulation** (`getGitHistory`): module `History`. The walk is
  an input, `walk: string -> seq<Entry>`, giving for the root directory the
  entries in visit order, each with its path, base name and the walk error
  reported for it. Running `git log` in a repository and decoding its
  output is an input too, `gitLog: (path, user, after) -> Extraction`. It
  yields a command failure, empty output, or the decoded records followed
  by how the stream ended (end of input, or a malformed record).
  `Visit` is what the walk callback does with one entry and `GitHistory` is
  the whole walk, a fold that stops at the first error. `VisitEntry` (the
  callback, with the decode loop over a `Decoder` object) and
  `GetGitHistory` (the walk loop) are methods proved equal to them.
  Module `HistoryProperties` states what the fold promises against the
  reference function `Gathered`, which is every entry's records in walk
  order with no stopping.
- **The action's guard** (`commands`): module `Action`. `Run` refuses an
  empty `user` before any history work. It otherwise returns the
  accumulated commits, or the error `getGitHistory` returned.

Errors are tagged by origin in the model: `MissingUser`, `WalkError`,
`GitError`, `DecodeError`. The Go code passes the underlying error values
through unchanged. The ghost out-parameter `visited` counts the entries the
callback was run on. It makes "no later entry is processed" and "no history
work happens for an empty user" statable.

Three behaviours of the code that a reader might expect otherwise:
- No author fallback. With no `--user`, the action fails straight away
  (main.go:39-42). It does not read a user name from git's global
  configuration.
- Walk errors are fail-fast. The first walk error for any entry aborts the
  whole walk (main.go:94-96).
- `getGitHistory` returns the commits gathered before a failure together
  with the error (main.go:130). The action then drops them and returns only
  the error (main.go:45-47). `DecodeErrorKeepsDecoded` and `Run` state both
  halves of this.

## Model

| member | source | states |
|---|---|---|
| Paths.Split | main.go:134 | `strings.Split(path, "/")`: always at least one segment, and no segment contains `/` |
| Paths.SplitWithoutSep | main.go:134 | a string without `/` splits into the single segment that is the string itself |
| Paths.SplitAround | main.go:134 | splitting `a + "/" + b` gives the segments of `a` followed by those of `b` |
| Paths.SegmentCount | main.go:134-135 | the split has fewer than two segments exactly when the path contains no `/` |
| Paths.JoinSplit | main.go:134 | joining the segments with `/` gives back the original path |
| Paths.SplitJoin | main.go:134 | splitting `/`-joined segments that contain no `/` gives back those segments |
| Paths.ParentDir | main.go:133-140 | the project name never contains `/`, and it is `""` when the path contains no `/` |
| Paths.ParentDirOfTopLevel | main.go:138-139 | `p/n` with `p` and `n` free of `/` is named `p` |
| Paths.ParentDirOfNested | main.go:138-139 | `d/p/n` with `p` and `n` free of `/` is named `p`, whatever `d` is |
| Paths.ParentDirExample | main.go:133-140 | `"a/myproj/.git"` is named `"myproj"` |
| History.Visit | main.go:93-128 | an error-free entry not named `.git` adds nothing and returns no error; only such an entry named `.git` can add records; the callback never returns the missing-user error |
| History.GitHistory | main.go:91-131 | the walk visits at most all entries; without an error it visits every entry; with an error it stopped at a visited entry |
| History.HistoryAppend | main.go:93-130 | walking `a + b` is walking `a`, then walking `b` only if `a` ended without an error; commits of `b` follow those of `a` |
| History.HistoryExtend | main.go:93-130 | after an error-free prefix, one more entry appends its records and, if it fails, ends the walk there |
| History.Decoder.constructor | main.go:110 | a decoder over one repository's output starts at its first record |
| History.Decoder.Decode | main.go:112-119 | hands out the next record in order, and once all are out returns how the stream ended: end of input or the decode error |
| History.VisitEntry | main.go:93-128 | the callback as a loop over the decoder: appends exactly the entry's stamped records in decode order and returns its error |
| History.GetGitHistory | main.go:91-131 | the walk as a loop that returns early on the first error: its commits, error and visit count are those of `GitHistory` on the walk of `dir` |
| HistoryProperties.GatheredAppend | main.go:111-123 | the reference concatenation of per-entry records distributes over `+` |
| HistoryProperties.HistoryIsGatheredPrefix | main.go:93-130 | the output is every record of the visited entries in walk order, the failing entry's included; every entry before the last visited one succeeded; the error is the last visited entry's; the walk ends without an error exactly when no entry fails |
| HistoryProperties.NoRepositoryNoCommits | main.go:98 | a walk without any `.git` entry yields no commits, and can fail only with a walk error |
| HistoryProperties.CommitsComeFromRepositories | main.go:112-122 | every output commit is a decoded record of a visited `.git` entry, its project replaced by `ParentDir` of that entry's path and all other fields as decoded |
| HistoryProperties.FirstFailureStops | main.go:94-130 | the first failing entry ends the walk; the result is the records before it and its own, with its error, whatever follows |
| HistoryProperties.WalkErrorStops | main.go:94-96 | a walk error aborts with that error after the records gathered so far; no later entry is processed |
| HistoryProperties.GitErrorStops | main.go:99-102 | a failing `git log` in a repository aborts with that error after the records gathered so far |
| HistoryProperties.DecodeErrorKeepsDecoded | main.go:113-119 | a malformed record aborts with the decode error; the output keeps the records decoded before it, from the failing repository too |
| HistoryProperties.RepositoryAppends | main.go:111-127 | a repository whose decode stream ends at end of input appends all its records, in decode order, each stamped with `ParentDir` of its path; the callback returns no error and the walk goes on with the next entry |
| HistoryProperties.HistoryCons | main.go:93-130 | walking an entry and then the rest: the rest is walked only if the entry returned no error |
| HistoryProperties.SilentEntrySkipped | main.go:98-106 | an entry that adds nothing and returns no error can be removed from the walk without changing the commits or the error |
| HistoryProperties.NonRepositorySkipped | main.go:98 | an entry not named `.git` is passed over and the walk continues |
| HistoryProperties.EmptyOutputSkipped | main.go:104-106 | a repository with empty `git log` output adds nothing and does not stop the walk |
| HistoryProperties.SilentWalk | main.go:98-106 | a walk whose entries are all passed over yields no commits and no error |
| HistoryProperties.ScenarioRepository | main.go:112-122 | `root/A/.git` with two commits yields both, in order, stamped `"A"` |
| HistoryProperties.ScenarioRestIsSilent | main.go:98-106 | the entries inside `A/.git`, `B/` with its empty `B/.git` and the entries inside it, `C` and `C/nogit` add no commits and no error |
| HistoryProperties.ThreeDirectoryScenario | main.go:91-131 | a walk of a tree holding `A/.git` with two commits, `B/.git` with none and `C/nogit`, going into each `.git` directory as well, yields exactly A's two commits, in order, stamped `"A"`, with no error |
| Action.Run | main.go:35-47 | fails with the missing-user error exactly when `user` is empty, and then without visiting any entry; otherwise returns `getGitHistory`'s error, or its commits on success |

## Left out

- `getCommits` (main.go:142-157): the `git log` subprocess and its output template are an external process. They are the `gitLog` parameter, which gives a failure, empty output or a decoded stream.
- `filepath.Walk` itself: directory enumeration order, symlinks, permissions, and the descent into `.git` directories. This is filesystem I/O. The visit sequence is the `walk` parameter.
- `encoding/xml` decoding (main.go:110-113) is a foreign library. `Decoder` only hands out the records and the terminal end that `gitLog` gives: what bytes decode to which records is not modelled.
- Writing the report and logging completion (main.go:49-64): `os.Create`, `json.MarshalIndent` and `f.Write` of `standup.json` are serialization and file I/O. The `completed...` log line is output only. `Run` returns the commits that would be written, and the JSON round trip is not modelled.
- CLI setup (`info`, `flags`, `main`, main.go:27-32, 69-89, 160-170): the `homedir` default for `--dir`, the wall-clock default for `--after`, and `log.Fatal`. These are plumbing, clock and process exit. `dir` and `after` are plain parameters.
- Error values: the model tags errors by origin and keeps only a message string. Go hands the platform's error values through unchanged.
