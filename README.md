# samwise-cli `checkForUpdates`, modelled in Dafny

samwise-cli's `checkForUpdates` command walks a directory tree of Terraform
code. In each directory it reads every file line by line, where each line
may declare `source="…"`. It then picks a module repository URL and a
pinned `?ref=` tag out of that source with four fixed regular expressions
(generic git, GitHub, HTTPS and Bitbucket). It then loops over the module
records. A record is skipped when an earlier record in the same loop named
its repository and got newer tags. Otherwise the program clones the
repository and lists the tags that are semantically newer than that
record's pin. A repository whose clone fails, or that has no newer tag, is
therefore cloned again for each later record that names it. The list of
records is never cleared, so every directory's loop also runs over the
records of the directories scanned before it, and each loop starts with
no repository marked as having yielded tags. The results
are module records (`repo`, `current_version`, `updates_available`) and
failure rows.

This project models that core:

- `cmd/readGitFiles.go`: cloning, tag filtering by version order, and
  joining the tags with `|`.
- `cmd/readFiles.go`: trailing-slash trimming, the regular expressions and
  their leftmost-first matching, the choice between the module expressions
  in map-key order, URL splitting, and the per-directory scan that appends
  to the package list `moduleRepoList`.
- `cmd/checkForUpdates.go`: the update loop over the module records, and
  the `WalkDir` callback with its ignore and depth rules.

The modules follow that structure:

| module | file | models |
|---|---|---|
| `Wrappers` | wrappers.dfy | Option and Result |
| `GoStrings` | go_strings.dfy | `strings.HasPrefix`, `HasSuffix`, `Contains`, `Split`, `Join`, `ReplaceAll` (empty replacement), `Count`, `TrimRight` |
| `GoVersion` | go_version.dfy | the part of `hashicorp/go-version` used here (`NewVersion`, `Compare`), simplified |
| `ReadGitFiles` | read_git_files.dfy | `cloneRepo`, `getTags`, `getSemverGreaterThanCurrent`, `processGitRepo` |
| `Patterns` | patterns.dfy | the five regular expressions and `FindAllStringSubmatch` on them |
| `ReadFiles` | read_files.dfy | `fixTrailingSlashForPath`, `checkRegexMatchNotEmpty`, `extractRefAndPath`, `extractModuleSource`, `preProcessingSourceString`, the line loop of `processRepoLinksAndTags` |
| `CheckForUpdates` | check_for_updates.dfy | the loop of `checkForModuleSourceUpdates` as a fold over records; the callback's decision rule |
| `CmdState` | cmd_state.dfy | the package-level lists and the Go maps as mutable objects; `processRepoLinksAndTags`, `checkForModuleSourceUpdates` and the `WalkDir` callback as methods |

Each Go `map[string]string` module record is the same object in every list
that holds it. `checkForModuleSourceUpdates` writes `updates_available`
into such a map in place. The model therefore has two layers:

- `CmdState.ModuleMap` is a class with a `Record` field.
- `CmdState.Globals` holds the package variables `moduleRepoList`,
  `modulesListTotal` and `failureListTotal`.

Its methods are proved against the value-level functions
`ReadFiles.CollectRecords`, `CmdState.DirRecords` and
`CheckForUpdates.UpdateLoop`, and the properties are lemmas about those
functions. The source never resets `moduleRepoList`. So each scanned
directory's loop also runs over every map found in earlier directories: it
looks their repositories up again and may rewrite their
`updates_available`. The model states this as it is written.

The outside world is a parameter, `CmdState.Env`:

- `readDir`: the entry names of a directory (`os.ReadDir`).
- `readLines`: the lines of a file (`os.Open` with `bufio.Scanner`).
- `keyOrder`: the order `maps.Keys` returns on each line.
- `parseUrl`: `url.Parse` with `ParseQuery`.
- `clone`: `git.Clone` with the tag listing.
- `prefix`: the cloning error prefix.

## Model

| member | source | states |
|---|---|---|
| `GoStrings.Split` | cmd/readGitFiles.go:43-46 | a split has at least one piece and no piece holds the separator |
| `GoStrings.JoinSplit` | cmd/readGitFiles.go:43-46 | joining the pieces of a split gives the string back |
| `GoStrings.SplitJoin` | cmd/readGitFiles.go:43-46 | splitting a join of separator-free pieces gives the pieces back |
| `GoStrings.RemoveAll` | cmd/readFiles.go:73 | removing a pattern never makes a string longer |
| `GoStrings.RemoveAllAbsent` | cmd/readGitFiles.go:36 | a string without the pattern is left unchanged |
| `GoStrings.RemoveCharGone` | cmd/readFiles.go:73 | after removing spaces, no space is left |
| `GoStrings.RemoveCharIdempotent` | cmd/readFiles.go:73 | removing spaces twice is the same as once |
| `GoStrings.TrimRight` | cmd/readFiles.go:27 | the result is a prefix of the input, does not end in the cut character, and only that character was dropped |
| `GoStrings.JoinChars` | cmd/readGitFiles.go:44 | every character of a join comes from a piece or is the separator |
| `GoVersion.Parse` | cmd/readGitFiles.go:50-57 | every accepted string yields a well-formed version |
| `GoVersion.ParseLeadingV` | cmd/readGitFiles.go:50 | a leading `v` is ignored |
| `GoVersion.ParsedAlphabet` | cmd/readGitFiles.go:54-57 | an accepted version string is non-empty and uses only digits, letters, `.` and `-` |
| `GoVersion.ParseFormat` | cmd/readGitFiles.go:50-57 | parsing the canonical text of a well-formed version gives it back |
| `GoVersion.NumeralRoundTrip` | cmd/readGitFiles.go:50-57 | decimal numerals round-trip |
| `GoVersion.Pad3` | cmd/readGitFiles.go:50-57 | the stored segment list is the parsed one followed by zeros up to three segments |
| `GoVersion.CompareAntisym` | cmd/readGitFiles.go:58 | comparing two versions the other way round negates the result |
| `GoVersion.CompareSelf` | cmd/readGitFiles.go:58 | a version compares equal to itself |
| `GoVersion.CompareTrans` | cmd/readGitFiles.go:58 | the "older than" order is transitive |
| `GoVersion.ReleaseAbovePrerelease` | cmd/readGitFiles.go:58 | a release is newer than any of its pre-releases |
| `GoVersion.CompareSegmentsTrans` | cmd/readGitFiles.go:58 | segment comparison is transitive, and equality only comes from equal steps |
| `GoVersion.ComparePreIdentsTrans` | cmd/readGitFiles.go:58 | pre-release comparison is transitive |
| `ReadGitFiles.CloneRepo` | cmd/readGitFiles.go:16-29 | cloning fails exactly when the clone fails; the error is the prefix followed by the cause; on success the repository's tags are returned |
| `ReadGitFiles.GetSemverGreaterThanCurrent` | cmd/readGitFiles.go:49-63 | true exactly when both strings parse and the checked version is strictly newer |
| `ReadGitFiles.SemverIrreflexive` | cmd/readGitFiles.go:49-63 | no version is greater than itself |
| `ReadGitFiles.SemverAsymmetric` | cmd/readGitFiles.go:49-63 | two versions are never both greater than each other |
| `ReadGitFiles.SemverTransitive` | cmd/readGitFiles.go:49-63 | "greater than current" chains |
| `ReadGitFiles.SemverPatchNewer` | cmd/readGitFiles_test.go:54 | 1.0.1 is newer than 1.0.0 |
| `ReadGitFiles.SemverOlderRejected` | cmd/readGitFiles_test.go:55 | 0.0.1 is not newer than 1.0.0 |
| `ReadGitFiles.SemverReleaseNewer` | cmd/readGitFiles_test.go:56 | 1.0.0 is newer than 1.0.0-alpha |
| `ReadGitFiles.SemverPrereleaseNewer` | cmd/readGitFiles_test.go:57 | 1.0.0-beta is newer than 1.0.0-alpha |
| `ReadGitFiles.SemverExtraZeroSegment` | cmd/readGitFiles.go:58 | 1.0.0.0-alpha and 1.0.0 compare equal, so neither is newer: the pre-release counts only when the padded segment lists are identical |
| `ReadGitFiles.SemverUnparseable` | cmd/readGitFiles_test.go:58 | comparing the unparseable `chaos` with 1.0.0-beta is false in either order |
| `ReadGitFiles.SelectTags` | cmd/readGitFiles.go:35-42 | the kept tags are no more than the tag references |
| `ReadGitFiles.SelectAtPositions` | cmd/readGitFiles.go:35-42 | each kept tag is the stripped name of the reference at its position |
| `ReadGitFiles.SelectPositionsIncrease` | cmd/readGitFiles.go:35-42 | kept tags keep the order of the references |
| `ReadGitFiles.SelectPositionsExact` | cmd/readGitFiles.go:35-42 | a reference is kept exactly when its stripped name passes the filter |
| `ReadGitFiles.SelectSound` | cmd/readGitFiles.go:37-40 | every kept tag passes the filter |
| `ReadGitFiles.SelectEmpty` | cmd/readGitFiles.go:43-46 | no tag is kept exactly when no stripped name passes the filter |
| `ReadGitFiles.NewerTagsStep` | cmd/readGitFiles.go:35-42 | one more tag reference appends its name exactly when it is newer than the pinned version |
| `ReadGitFiles.NewerTagsSelection` | cmd/readGitFiles.go:35-42 | the newer tags are exactly the stripped names, in order, that are newer than the pinned version |
| `ReadGitFiles.VersionStringShape` | cmd/readGitFiles.go:36-39 | a parseable tag is non-empty and holds no `\|`, no `/` and no `refs/tags/` |
| `ReadGitFiles.NewerTagShape` | cmd/readGitFiles.go:36-39 | each newer tag is newer than the pinned version and free of `\|` |
| `ReadGitFiles.JoinedTags` | cmd/readGitFiles.go:43-46 | the joined string is empty exactly when no tag is newer, and otherwise splits back into those tags |
| `ReadGitFiles.GetTags` | cmd/readGitFiles.go:31-47 | returns the `\|`-join of the newer tags, "" exactly when there are none, splitting back into them otherwise |
| `ReadGitFiles.UnparseablePinKeepsNothing` | cmd/readGitFiles.go:50-53 | an unparseable pinned version yields no tags |
| `ReadGitFiles.ProcessGitRepoOutcomes` | cmd/readGitFiles.go:64-71 | an error exactly when the clone fails, then with no tags and the error prefix; otherwise the joined newer tags |
| `ReadGitFiles.ProcessGitRepo` | cmd/readGitFiles.go:64-71 | returns the pair the specification function gives; an error comes with an empty tag list and the cloning prefix |
| `Patterns.Compile` | cmd/readFiles.go:16-21 | a literal compiles character by character, with `.` as the only wildcard |
| `Patterns.HeadAtLiteral` | cmd/readFiles.go:18-20 | where the literal text occurs, the compiled head matches |
| `Patterns.LastIndex` | cmd/readFiles.go:15-20 | finds the last position of the character, or reports that there is none |
| `Patterns.LastHeadAt` | cmd/readFiles.go:20 | the greedy `.*` stops at the last head position in range, or there is none |
| `Patterns.Find` | cmd/readFiles.go:62 | the match found lies within the line and after the start offset |
| `Patterns.CaptureStartSound` | cmd/readFiles.go:15-20 | the capture start chosen at an opening is a match |
| `Patterns.CaptureStartComplete` | cmd/readFiles.go:15-20 | any match at that opening starts its group no later and closes no later |
| `Patterns.LeftmostSound` | cmd/readFiles.go:62 | the leftmost match found is a match |
| `Patterns.LeftmostBest` | cmd/readFiles.go:62 | no match starts earlier; at the same start none has a later group or quote |
| `Patterns.LeftmostNone` | cmd/readFiles.go:62 | when none is found there is no match from that offset |
| `Patterns.FindSpec` | cmd/readFiles.go:62 | `Find` is the leftmost-first greedy match, or there is none |
| `Patterns.FindAtStart` | cmd/readFiles.go:62 | a match at the start that closes at the final quote with the widest group is the one found |
| `Patterns.NothingAfterQuote` | cmd/readFiles.go:74 | once a match is found, nothing matches after it, because the group runs to the last quote |
| `Patterns.FindAllStringSubmatch` | cmd/readFiles.go:62 | every match comes as a `[whole, group]` pair |
| `Patterns.FindAllShape` | cmd/readFiles.go:62-63 | for any count but 0: empty exactly when there is no match; otherwise one match whose non-empty group is the leftmost-first capture |
| `ReadFiles.FixTrailingSlashForPath` | cmd/readFiles.go:25-30 | the result does not end in `/`, is a prefix of the path followed only by slashes, and a path without a trailing `/` is unchanged |
| `ReadFiles.FixTrailingSlashIdempotent` | cmd/readFiles.go:25-30 | trimming twice equals trimming once |
| `ReadFiles.FixTrailingSlashExamples` | cmd/readFiles_test.go:5-19 | `./test_dir/` and `./test_dir` both become `./test_dir`, and `///` becomes "" |
| `ReadFiles.CheckRegexMatchNotEmpty` | cmd/readFiles.go:32-37 | non-empty exactly when there is a first match with a non-empty group, and then it is that group |
| `ReadFiles.ExtractRefAndPath` | cmd/readFiles.go:39-55 | the URL is the scheme with `://` when there is one, then host and path; the ref is the `ref` query value or "" |
| `ReadFiles.ExtractRefAndPathIgnoresQuery` | cmd/readFiles.go:39-55 | only scheme, host, path and the `ref` value matter |
| `ReadFiles.CaptureMeaning` | cmd/readFiles.go:62-63 | a key's capture is non-empty exactly when its expression matches, and is then the leftmost-first group |
| `ReadFiles.FirstNonEmptyEmpty` | cmd/readFiles.go:61-68 | the search yields "" exactly when every capture is empty |
| `ReadFiles.FirstNonEmptyIsFirst` | cmd/readFiles.go:61-68 | a non-empty result is the capture of some key, and all earlier keys capture nothing |
| `ReadFiles.FirstNonEmptyUnique` | cmd/readFiles.go:61-68 | if only one key can capture, the result is its capture |
| `ReadFiles.FirstCaptureEmpty` | cmd/readFiles.go:57-69 | no repo link exactly when none of the expressions matches |
| `ReadFiles.FirstCaptureIsFirst` | cmd/readFiles.go:57-69 | the link is the capture of the first matching expression in key order |
| `ReadFiles.UniqueMatchOrderFree` | cmd/readFiles.go:58 | when only one expression matches, the key order does not matter |
| `ReadFiles.AmbiguousHttps` | cmd/readFiles.go:19 | on `source="https://bitbucket.org/x"` the HTTPS expression captures the whole URL |
| `ReadFiles.AmbiguousBitbucket` | cmd/readFiles.go:20 | on the same line the Bitbucket expression captures from `bitbucket.org` |
| `ReadFiles.KeyOrderMatters` | cmd/readFiles.go:58-66 | the link extracted from that line depends on the order `maps.Keys` returns |
| `ReadFiles.ExtractModuleSource` | cmd/readFiles.go:57-69 | returns the first capture in key order, "" exactly when no module expression matches |
| `ReadFiles.PreProcessingSourceString` | cmd/readFiles.go:71-87 | returns the pair of the specification function `SourceRef` |
| `ReadFiles.SourceRefIgnoresSpaces` | cmd/readFiles.go:73 | a line and the same line without spaces give the same pair |
| `ReadFiles.NoSourceLineNoRef` | cmd/readFiles.go:74-76 | a line without a `source="…"` match gives ("", "") |
| `ReadFiles.NoModuleNoRef` | cmd/readFiles.go:78-85 | a line no module expression matches gives ("", "") |
| `ReadFiles.ModuleMatchIsSourceLine` | cmd/readFiles.go:15-20 | every module-expression match is also a `source="…"` match |
| `ReadFiles.SourceGateRedundant` | cmd/readFiles.go:74-82 | whenever a module expression captures, the pair is that capture's URL and ref |
| `ReadFiles.ModuleRecord` | cmd/readFiles.go:102 | a new record holds exactly `repo` and `current_version` |
| `ReadFiles.CollectRecordsStep` | cmd/readFiles.go:97-105 | one more line appends its record exactly when its repo is non-empty |
| `ReadFiles.CollectRecordsShape` | cmd/readFiles.go:97-105 | at most one record per line; each has the two keys and a non-empty repo; no link means no record |
| `ReadFiles.CollectRecordsPrefix` | cmd/readFiles.go:97-105 | the records of a prefix of the lines are a prefix of the records |
| `ReadFiles.CollectRecordsSound` | cmd/readFiles.go:99-103 | every record comes from a line with a non-empty repo |
| `ReadFiles.CollectRecordsComplete` | cmd/readFiles.go:99-103 | every line with a non-empty repo has its record |
| `CheckForUpdates.FailureRow` | cmd/checkForUpdates.go:94-99 | a failure row holds exactly repo, current version, the tags and the error |
| `CheckForUpdates.ResolvedInPrefix` | cmd/checkForUpdates.go:87-106 | whether a module is looked up, and its answer, depend only on the modules before it |
| `CheckForUpdates.LoopLength` | cmd/checkForUpdates.go:87-106 | the loop keeps every module |
| `CheckForUpdates.LoopPrefix` | cmd/checkForUpdates.go:87-106 | running on a prefix gives a prefix of the modules and subsets of `listWritten` and the failures |
| `CheckForUpdates.LoopModules` | cmd/checkForUpdates.go:101-104 | module `i` gets `updates_available` exactly when it was looked up and tags came back |
| `CheckForUpdates.LoopKeepsRepoAndVersion` | cmd/checkForUpdates.go:87-106 | nothing but `updates_available` changes in a record |
| `CheckForUpdates.WrittenDistinct` | cmd/checkForUpdates.go:91-103 | `listWritten` has no duplicates |
| `CheckForUpdates.WrittenComplete` | cmd/checkForUpdates.go:101-103 | every looked-up repo with tags is in `listWritten` |
| `CheckForUpdates.WrittenSound` | cmd/checkForUpdates.go:101-103 | every repo in `listWritten` was looked up and had tags |
| `CheckForUpdates.SkipAfterWritten` | cmd/checkForUpdates.go:91 | a later module with a repo already written is not looked up and stays unchanged |
| `CheckForUpdates.LoopCounts` | cmd/checkForUpdates.go:87-106 | failures and written repos are at most the lookups, which are at most the modules |
| `CheckForUpdates.FailuresGrow` | cmd/checkForUpdates.go:93-100 | failure rows are only ever appended |
| `CheckForUpdates.StepAt` | cmd/checkForUpdates.go:87-106 | the loop over one more module is one more iteration |
| `CheckForUpdates.FailureAt` | cmd/checkForUpdates.go:93-100 | a failed lookup appends its failure row at that iteration |
| `CheckForUpdates.FailureComplete` | cmd/checkForUpdates.go:93-100 | every failed lookup has its failure row |
| `CheckForUpdates.FailureSound` | cmd/checkForUpdates.go:93-100 | every failure row comes from a failed lookup |
| `CheckForUpdates.GitFailures` | cmd/checkForUpdates.go:92-104 | with the real lookup, failure rows have empty tags and a prefixed error, and a failed module is not marked |
| `CheckForUpdates.GitCallsComplete` | cmd/checkForUpdates.go:91-92 | every module not yet written is looked up |
| `CheckForUpdates.GitCallAt` | cmd/checkForUpdates.go:91-92 | a lookup appends its `(repo, version)` call at that iteration |
| `CheckForUpdates.GitCallsGrow` | cmd/checkForUpdates.go:91-92 | calls are only ever appended |
| `CheckForUpdates.GitCallsSound` | cmd/checkForUpdates.go:91-92 | every call is for a module that was not yet written |
| `CheckForUpdates.SameRepoOtherVersion` | cmd/checkForUpdates.go:91-104 | a second pin of a repo that already got updates is never looked up and stays unchanged |
| `CheckForUpdates.WalkDecisionAsWritten` | cmd/checkForUpdates.go:50-61 | the callback as written: scan or prune exactly for non-ignored directories, by the separator count against the root plus depth; ignored entries pass |
| `CheckForUpdates.DepthMinusOnePrunesRoot` | cmd/checkForUpdates.go:53 | as written, depth -1 prunes the root directory itself |
| `CheckForUpdates.DepthMinusOneExample` | cmd/checkForUpdates.go:128 | as written, `--depth -1` on root `infra` skips `infra` |
| `CheckForUpdates.WalkDecision` | cmd/checkForUpdates.go:50-61 | the intended rule: a negative depth never prunes, otherwise as written |
| `CheckForUpdates.WalkDecisionAgrees` | cmd/checkForUpdates.go:53 | the corrected rule equals the written one for every depth of 0 or more |
| `CheckForUpdates.DepthRuleChoice` | cmd/checkForUpdates.go:50-54 | either rule is: pass files and ignored directories, prune by the separator count (for the intended rule only from depth 0 up), otherwise scan |
| `CheckForUpdates.IgnoredNotPruned` | cmd/checkForUpdates.go:51 | an ignored directory is neither scanned nor pruned, under both rules |
| `CmdState.ModuleMap.constructor` | cmd/readFiles.go:102 | a new map holds the module record |
| `CmdState.Contents` | cmd/checkForUpdates.go:87-106 | the records the maps hold, one per map, in order |
| `CmdState.ContentsAppend` | cmd/readFiles.go:102 | appending a map appends its record |
| `CmdState.DirRecordsStep` | cmd/readFiles.go:92-108 | one more directory entry appends that file's records |
| `CmdState.DirRecordsShape` | cmd/readFiles.go:92-108 | every record of a directory has the two keys and a non-empty repo |
| `CmdState.DirRecordsEmpty` | cmd/readFiles.go:92-108 | a directory whose files have no lines contributes nothing |
| `CmdState.ScanLine` | cmd/readFiles.go:98-99 | returns line `l`'s pair under that line's key order |
| `CmdState.UpdateModule` | cmd/checkForUpdates.go:88-105 | one iteration writes the map in place and returns the failure list and `listWritten` of one loop step |
| `CmdState.UpdateModules` | cmd/checkForUpdates.go:87-106 | over distinct maps, the new contents and failure list are those of the specification loop |
| `CmdState.Globals.constructor` | cmd/checkForUpdates.go:20-21 | the package lists start empty |
| `CmdState.Globals.AppendModule` | cmd/readFiles.go:101-103 | appends one new map holding the record; the totals are untouched |
| `CmdState.Globals.ScanFileLine` | cmd/readFiles.go:97-105 | after line `l`, the list holds the records of the lines up to `l` |
| `CmdState.Globals.ScanFile` | cmd/readFiles.go:93-107 | appends the file's records in line order and keeps the earlier maps |
| `CmdState.Globals.ScanEntry` | cmd/readFiles.go:92-108 | after entry `i`, the list holds the records of the entries up to `i` |
| `CmdState.Globals.ProcessRepoLinksAndTags` | cmd/readFiles.go:89-110 | appends the directory's records to `moduleRepoList` and returns the whole list |
| `CmdState.Globals.CheckForModuleSourceUpdates` | cmd/checkForUpdates.go:75-109 | the returned maps hold the loop's result over all earlier records plus this directory's, and the failures are the loop's |
| `CmdState.Globals.ScanDirectory` | cmd/checkForUpdates.go:57-59 | the scanned directory's maps and failures are those of `checkForModuleSourceUpdates`, and both are appended to the totals |
| `CmdState.Globals.VisitEntry` | cmd/checkForUpdates.go:48-62 | decides by the rule as written or the intended one, as asked; a scanned directory replaces `modules` and `failureList` and appends them to the totals; otherwise nothing changes |

## Left out

- File and directory I/O, `url.Parse`, `git.Clone` with its basic-auth credentials, and the tag listing are parameters of `CmdState.Env`. The panic path of `Check` is not modelled: every such operation is taken to succeed, without error.
- The value of `errorHandlers.CloningErrorPrefix` is the parameter `prefix`. The errorHandlers package is not part of this model.
- Logging (`slog`), the progress bar, the cobra flag parsing and `getParamsForCheckForUpdatesCMD` have no bearing on the results and are left out.
- The report is left out. `Run` calls `generateReport` and `createJSONReportFile` with the `modules` and `failureList` of the last scanned directory; VisitEntry returns those values, and the report writers lie outside the modelled files.
- The traversal order of `filepath.WalkDir` is not modelled. VisitEntry is the callback for one entry, and the caller supplies the entries; `Prune` is what the callback returns as `fs.SkipDir`.
- `os.PathSeparator` is fixed to `/`.
- GoVersion.Parse: a simplified grammar for `hashicorp/go-version`'s `NewVersion`. Leading zeros are read by value, as the library reads them (`01` is 1). Segment values are unbounded here, where the library rejects one that does not fit an `int64`. The model rejects three forms that the library accepts, so `getTags` keeps such tags in the program and drops them here: a pre-release that starts with a letter and has no `-` before it (`1.2.0rc1`, `v1.0.0beta`); `~` inside identifiers; and build metadata after `+`.
- GoVersion.Compare: the pre-release order is the semantic-versioning 2.0 order, not the library's `comparePrereleases`, which compares part by part with its own rules for missing and numeric parts and is not transitive. The library's rule that pre-releases count only when the segment lists, padded to three, are identical is modelled (see `ReadGitFiles.SemverExtraZeroSegment`).
- GoVersion.CompareTrans, GoVersion.ComparePreIdentsTrans and ReadGitFiles.SemverTransitive: proved of the model's pre-release order; they are no promise about the library's order.
- The regular expressions are only the five fixed patterns, matched on characters. Go's `regexp` works on UTF-8 bytes and runes, which are not modelled. The model's `.` also matches a newline, which Go's does not; lines read by `bufio.Scanner` never hold one, so this does not change what the program finds.
- Go's `int` has a width; depth and counts are unbounded here.
- VisitEntry: the rule is chosen by the parameter `asWritten`, which the program does not have. With `asWritten` true it follows the program (`WalkDecisionAsWritten`); with it false it follows the corrected rule `WalkDecision`, under which `--depth -1` scans the whole tree (see Findings).
- `cmd/checkForUpdates_test.go` tests a function `directorySearch` that the modelled source no longer has, so those tests are not modelled.

## Findings

| source | as written | input that shows it | evidently intended | confidence | as-written member | corrected member |
|---|---|---|---|---|---|---|
| cmd/checkForUpdates.go:53 | a directory is pruned when its separator count exceeds the root's count plus `depth` | `--depth -1` with root `infra`: the root has count 0, and 0 > 0 + (-1), so the root is skipped and nothing is scanned | the `--depth` help (cmd/checkForUpdates.go:128) says -1 means a full directory extraction, so a negative depth should never prune | not executed | `CheckForUpdates.DepthMinusOnePrunesRoot` | `CheckForUpdates.WalkDecision` |
