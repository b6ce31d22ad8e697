# lidder, modelled in Dafny

lidder keeps a lid on code patterns. A YAML configuration lists include and
exclude path patterns and a set of rules. Each rule is a regular expression
with the files where it may occur. lidder walks the current directory tree,
or only one named file, and scans every admitted file line by line. For each
rule it records the files whose lines match the rule's pattern. Then it
reconciles what it found against what each rule expected:

- a file where the pattern was found but not expected is reported;
- an expected file where the pattern was not found is reported;
- the run exits with status 2 if any rule has either kind of mismatch, with 0 if none does, and with 1 on a configuration or I/O error.

The model follows `lidder.go`, file by file:

- `regex.dfy` (`Regex`): a compiled pattern is its source text plus a
  `matches` predicate. The compiler is a parameter. `CompileAll` is one
  compile loop of `parse`.
- `path_filter.dfy` (`PathFilter`): `shouldCheck`, as a function. Excludes
  win, and a path is admitted only when some include matches it.
- `line_split.dfy` (`LineSplit`): how the read loop of `matchAgainstFile`
  cuts a file into lines. `Lines` returns the `'\n'`-terminated lines; the
  unterminated remainder is never scanned.
- `walk.dfy` (`Walk`): the file tree as a datatype and the walk of
  `exploreDir` as a pure function. The walk produces a `Trace`: the
  (path, line) pairs handed to the line matcher, in order, and the error that
  stopped it. `HitFiles` gives the actual file set of a pattern over such a
  log.
- `reconcile.dfy` (`Reconcile`): the narrowing of `adjustExpectedFilenames`
  and the pass condition of a rule.
- `lidder.dfy` (`Lidder`): the imperative core.
  - A `Rule` class holds the expected and actual sets.
  - A `Defs` class holds the compiled includes, excludes and rules.
  - Its methods update the rules in place, as the Go methods do. Each is
    proved against the pure functions above.
  - `Defs.Valid()` says that every rule's actual set is `HitFiles` of its
    pattern over `log`. `log` is a ghost record of every line handed to the
    line matcher.
  - `Parse` and `Run` model `parse` and the verdict logic of `main`, and
    `Outcome` is the exit status `Run` is proved to return.
- `scenarios.dfy` (`Scenarios`): a lid on `TODO` that is allowed only in
  `legacy.go`, worked through four runs.

A file's final segment without `'\n'` is never scanned. `ReadString`
returns that segment together with `io.EOF`, and the loop returns before
scanning it (lidder.go:139-141). `LineSplit.UnterminatedTailIgnored` and
`LineSplit.LastLineWithoutNewline` state it.

## Model

| member | source | states |
|---|---|---|
| Regex.CompileAll | lidder.go:54-78 | compiling a list succeeds iff every pattern compiles, giving the compiled patterns in order; on failure the error is that of the first pattern that fails, all earlier ones having compiled |
| Regex.CompileAllPrefixFailure | lidder.go:55-59 | once a prefix of the list fails to compile, the whole list fails with the same error (the loop returns at the first failure) |
| Regex.CompileAllAppend | lidder.go:53-78 | compiling two lists one after the other: the first list's failure wins, then the second's; on success the results are concatenated |
| PathFilter.AnyMatch | lidder.go:180-191 | true iff some pattern of the list matches the path (the early-return loops) |
| PathFilter.ShouldCheck | lidder.go:177-192 | a path is scanned iff no exclude pattern matches it and some include pattern matches it |
| PathFilter.ExcludeWins | lidder.go:178-184 | a path matched by both an include and an exclude pattern is not scanned |
| PathFilter.DefaultDeny | lidder.go:185-191 | a path that no include pattern matches is never scanned, whatever the excludes; an empty include list scans nothing |
| LineSplit.FirstNewline | lidder.go:139 | the position `ReadString` cuts at lies within the input |
| LineSplit.FirstNewlineSpec | lidder.go:139 | the cut is at the first '\n'; no cut means the rest holds no '\n' |
| LineSplit.Lines | lidder.go:137-147 | the lines the read loop hands to `matchAgainstLine`, in order; its meaning is given by `LinesTerminated`, `LinesCover` and `LinesOfTerminated` |
| LineSplit.Unscanned | lidder.go:139-141 | the segment returned with `io.EOF` and never scanned; `UnscannedHasNoNewline` and `LinesCover` give its meaning |
| LineSplit.LinesTerminated | lidder.go:139-146 | every line handed to the matcher ends with its '\n' and holds no other |
| LineSplit.UnscannedHasNoNewline | lidder.go:139-141 | the segment returned with `io.EOF` holds no '\n' |
| LineSplit.LinesCover | lidder.go:137-147 | the scanned lines followed by the unscanned remainder are exactly the file contents |
| LineSplit.LinesOfTerminated | lidder.go:137-147 | splitting terminated lines joined with a '\n'-free tail gives those lines back, with the tail left unscanned (the inverse of `LinesCover`) |
| LineSplit.FirstNewlineOfTerminated | lidder.go:139 | reading from a terminated line stops at that line's own '\n' |
| LineSplit.UnterminatedTailIgnored | lidder.go:139-141 | appending a segment without '\n' to a file changes none of the scanned lines |
| LineSplit.LastLineWithoutNewline | lidder.go:139-141 | in "a\nTODO" only "a\n" is scanned |
| Reconcile.Narrowed | lidder.go:93-101 | the narrowed expected set lies within the target, and holds it iff the old set did |
| Reconcile.NarrowedIsIntersection | lidder.go:93-101 | narrowing equals intersecting the expected set with the target |
| Reconcile.Passes | lidder.go:223-227 | a rule passes when both mismatch sets are empty; `PassesIffEqual` shows this is equality of the two sets |
| Reconcile.PassesIffEqual | lidder.go:223-227 | a rule has no mismatch in either direction iff its expected and actual sets are equal |
| Reconcile.SingleFileOneSided | lidder.go:228-235 | if both sets lie within the target, at most one of the two mismatch sets is non-empty |
| Walk.FileTrace | lidder.go:130-148 | the log and error of `matchAgainstFile`: an open failure logs nothing, otherwise every line of `Lines` is logged with the path and the stream's end decides the error; `Lidder.Defs.MatchAgainstFile` is proved against it and `HitFilesOfOneFile` bounds its effect |
| Walk.WalkDir | lidder.go:150-155 | the log and error of `exploreDir`: a listing error stops at once; its meaning is given by `WalkDirAdmitted`, `WalkEntriesContents` and `WalkOrderIndependent` |
| Walk.WalkEntries | lidder.go:156-174 | the entries visited in order, the first error stopping the walk; `WalkEntriesSnoc` and `WalkEntriesStops` give its steps |
| Walk.WalkEntry | lidder.go:157-171 | directories are entered, regular files scanned only when `shouldCheck` admits them, other entries skipped; `WalkEntryAdmitted` states the filter's effect |
| Walk.WalkDirAdmitted | lidder.go:150-175 | every path the walk hands to the line matcher is admitted by `shouldCheck` |
| Walk.WalkEntriesAdmitted | lidder.go:156-172 | every path logged while visiting a directory's entries is admitted by `shouldCheck` |
| Walk.WalkEntryAdmitted | lidder.go:157-171 | a regular file is logged only after `shouldCheck` admits it; directories pass the property on |
| Walk.WalkEntriesContents | lidder.go:156-174 | a directory's walk has no error iff no entry's walk has one, and then logs exactly the pairs its entries log |
| Walk.WalkOrderIndependent | lidder.go:150-175 | listings of a directory with the same entries in any order fail alike, and otherwise give every pattern the same actual set |
| Walk.WalkEntriesSnoc | lidder.go:156-172 | visiting one more entry after an error-free prefix appends that entry's trace |
| Walk.WalkEntriesStops | lidder.go:160-170 | after an error the remaining entries are not visited |
| Walk.HitFiles | lidder.go:121-128 | the actual set a rule accumulates over a log of scanned lines; `HitFilesMembers` characterises it |
| Walk.HitFilesMembers | lidder.go:121-128 | a file is in a rule's actual set iff the pattern matched one of the lines logged for it |
| Walk.HitFilesAppend | lidder.go:121-128 | scanning more lines only adds the files of those lines |
| Walk.HitFilesOrderIndependent | lidder.go:121-128 | logs with the same (path, line) pairs, whatever their order or repetitions, give the same actual set |
| Walk.RescanAddsNothing | lidder.go:150-175 | scanning the same tree twice gives the same actual sets as scanning it once |
| Walk.HitFilesOfOneFile | lidder.go:130-148 | scanning one file can only add that file, and adds it iff one of its lines matched |
| Lidder.SourcesInOrder | lidder.go:53-78 | `parse` compiles includes, then excludes, then rule patterns; the first failure in that order is the error |
| Lidder.ReadStringStep | lidder.go:139-146 | one iteration of the read loop takes the text up to and including the next '\n' as the next line |
| Lidder.ReadStringAtEnd | lidder.go:139-141 | when no '\n' is left, the loop has scanned every line of the file |
| Lidder.Rule.constructor | lidder.go:80-87 | a new rule's expected set holds exactly the listed files, and its actual set is empty |
| Lidder.Rule.Mismatches | lidder.go:103-119 | the first result lists exactly actual minus expected and the second exactly expected minus actual, each without duplicates; the two are disjoint |
| Lidder.Defs.constructor | lidder.go:53-89 | new definitions keep the compiled lists and the rules, with an empty log |
| Lidder.Defs.AdjustExpectedFilenames | lidder.go:93-101 | every rule's expected set becomes its narrowing to the target; actual sets and the log are unchanged |
| Lidder.Defs.MatchAgainstLine | lidder.go:121-128 | every rule is tested, with no short-circuit: a rule's actual set gains the file iff its pattern matches the line, expected sets are unchanged, and the line is logged |
| Lidder.Defs.MatchAgainstFile | lidder.go:130-148 | the line matcher receives exactly the file's '\n'-terminated lines in order; an open failure or a non-EOF read error is returned; EOF returns no error |
| Lidder.Defs.ExploreDir | lidder.go:150-175 | the lines scanned and the error returned are those of the walk: directories entered, admitted regular files scanned, others skipped, first error stops |
| Lidder.Defs.VisitEntry | lidder.go:157-171 | one entry of a listing: a directory is walked, an admitted regular file is scanned, anything else is skipped; the lines scanned and the error are exactly those `WalkEntry` gives |
| Lidder.Defs.Verdict | lidder.go:223-227 | the run fails iff some rule's expected and actual sets differ in either direction |
| Lidder.Defs.Check | lidder.go:211-227 | single-file mode iff a target is given and admitted; an I/O error is fatal; otherwise exit 2 iff some rule fails against its narrowed expectation, else 0 |
| Lidder.CompileList | lidder.go:54-61 | one compile loop returns the result `CompileAll` specifies |
| Lidder.NewRules | lidder.go:80-87 | one fresh, distinct rule per configured rule, with its compiled pattern, expected set and empty actual set |
| Lidder.Parse | lidder.go:53-89 | fails iff some pattern fails to compile, with the first failure's error; on success every rule expects its listed files and has found nothing yet |
| Lidder.Scan | lidder.go:211-221 | the lines `main` has scanned and the error it stops on: the target file's trace in single-file mode, the walk of "." otherwise |
| Lidder.Outcome | lidder.go:201-259 | the exit status of `main`; `ExitStatus`, `OkIffEveryRuleAgrees`, `ExcludedTargetScansTree` and `SingleFileReportOneSided` give its meaning |
| Lidder.Run | lidder.go:201-259 | the exit status is `Outcome` of the configuration, compiler, invocation and tree |
| Lidder.OkIffEveryRuleAgrees | lidder.go:223-259 | after a clean parse and scan the run is never fatal, and it exits 0 iff every rule's (narrowed) expected set equals its actual set |
| Lidder.ExitStatus | lidder.go:201-265 | the run exits 1 iff decoding, compiling or scanning fails, and 2 iff it is clean and some rule has a file found where not expected or an expected file not found |
| Lidder.ExcludedTargetScansTree | lidder.go:212-218 | a named file the path filter rejects is ignored: the run scans the whole tree |
| Lidder.SingleFileReportOneSided | lidder.go:228-235 | in single-file mode, expected and actual sets lie within the target, so a rule never has both kinds of mismatch |
| Scenarios.NewOccurrenceFails | lidder.go:211-259 | TODO in `legacy.go` and in `new.go`: `new.go` is found where not expected, nothing is missing, exit 2 |
| Scenarios.ExpectedOccurrencePasses | lidder.go:211-259 | TODO only in `legacy.go`: the sets agree, exit 0 |
| Scenarios.MissingOccurrenceFails | lidder.go:211-259 | only `other.go`, without TODO: `legacy.go` is missing, exit 2 |
| Scenarios.SingleFilePasses | lidder.go:211-259 | single-file mode on `legacy.go` holding TODO passes whatever the rest of the tree holds |

## Left out

- YAML decoding (`yaml.Unmarshal`) is not part of this model. `Run` receives the decoded configuration, or the error from reading or decoding it, which is fatal.
- The regular expression engine (`regexp.Compile`, `Regexp.Match`) is foreign code. A compiled pattern carries an uninterpreted `matches` predicate, and the compiler is a parameter.
- The file system is an in-memory value. `ioutil.ReadDir`, `os.Open` and the read errors of `bufio.Reader` become `Listing`, `Opened` and `StreamEnd`. The order of a listing is the order `ReadDir` returns, and closing files is not modelled.
- `Walk.Join`: `filepath.Join` is modelled only for the paths the walk builds: a clean directory reached from "." and an entry name.
- Command-line handling, the usage message, `ioutil.ReadFile` of the configuration, every printed report line, and `oops`/`os.Exit` are left out. Only the exit status is modelled.
- Walk.WalkOrderIndependent: reorders the entries of one listing only. `ioutil.ReadDir` returns entries sorted by name, so the order the program sees never varies. The same independence for reorderings inside subdirectories is not stated as a lemma; it would follow from `WalkEntriesContents` by induction over the tree.
- Strings: a Dafny character stands for one byte of Go's byte strings, in lines, file contents and paths. Nothing is lost by this, because the split at the byte '\n' is the same and `matches` is uninterpreted.
- `Lidder.Rule.Mismatches`: the Go slices follow map iteration order, which is unspecified. The contract states only their elements and that they have no duplicates.
- A `nil` entry in the configured rule list would make the Go code fail on a nil pointer. The model's rules are always present.
