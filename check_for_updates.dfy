/**
 * cmd/checkForUpdates.go, the rules: what `checkForModuleSourceUpdates`
 * does to a list of module records, and what `Run`'s `WalkDir` callback
 * decides for each entry.
 *
 * The loop is stated as a fold over the records for any `resolve`, the
 * function from `(repo, current_version)` to `processGitRepo`'s
 * `(tagsList, err)`; GitResolver is the one the program uses.
 */
module CheckForUpdates {
  import opened Wrappers
  import opened GoStrings
  import opened ReadGitFiles
  import opened ReadFiles

  const UpdatesAvailableKey := "updates_available"
  const ErrorKey := "error"

  /** `m[k]` on a Go map: "" when `k` is absent. */
  function Get(m: Record, k: string): string
  {
    if k in m then m[k] else ""
  }

  /** The row appended to `failureList` when `processGitRepo` fails for module `m`. */
  function FailureRow(m: Record, tags: string, error: string): (row: Record)
    ensures row.Keys == {RepoKey, CurrentVersionKey, UpdatesAvailableKey, ErrorKey}
    ensures row[RepoKey] == Get(m, RepoKey) && row[CurrentVersionKey] == Get(m, CurrentVersionKey)
    ensures row[UpdatesAvailableKey] == tags && row[ErrorKey] == error
  {
    map[RepoKey := Get(m, RepoKey), CurrentVersionKey := Get(m, CurrentVersionKey),
        UpdatesAvailableKey := tags, ErrorKey := error]
  }

  /** `processGitRepo` as a function of `(repo, current_version)`. */
  type Resolver = (string, string) -> (string, Option<string>)

  /** The resolver of the program: clone with `clone`, wrap errors with `prefix`. */
  function GitResolver(clone: string -> CloneOutcome, prefix: string): Resolver
  {
    (url, current) => ProcessGitRepoResult(url, current, clone, prefix)
  }

  /** The loop's variables after some iterations: the records, `failureList` and `listWritten`. */
  datatype LoopState = LoopState(modules: seq<Record>, failures: seq<Record>, written: seq<string>)

  /** One iteration of the loop in `checkForModuleSourceUpdates`, for module `m`. */
  function Step(s: LoopState, m: Record, resolve: Resolver): LoopState
  {
    var repo := Get(m, RepoKey);
    if repo in s.written then LoopState(s.modules + [m], s.failures, s.written)
    else
      var (tags, err) := resolve(repo, Get(m, CurrentVersionKey));
      LoopState(
        s.modules + [if |tags| > 0 then m[UpdatesAvailableKey := tags] else m],
        s.failures + (if err.Some? then [FailureRow(m, tags, err.value)] else []),
        s.written + (if |tags| > 0 then [repo] else []))
  }

  /** The loop over `ms`, from empty `failureList` and `listWritten`. */
  function UpdateLoop(ms: seq<Record>, resolve: Resolver): LoopState
    decreases |ms|
  {
    if ms == [] then LoopState([], [], [])
    else Step(UpdateLoop(ms[..|ms| - 1], resolve), ms[|ms| - 1], resolve)
  }

  /** Module `i` is resolved: its repo is not yet in `listWritten` when the loop reaches it. */
  predicate Resolved(ms: seq<Record>, i: nat, resolve: Resolver)
    requires i < |ms|
  {
    Get(ms[i], RepoKey) !in UpdateLoop(ms[..i], resolve).written
  }

  /** `processGitRepo`'s answer for module `i`. */
  function Answer(ms: seq<Record>, i: nat, resolve: Resolver): (string, Option<string>)
    requires i < |ms|
  {
    resolve(Get(ms[i], RepoKey), Get(ms[i], CurrentVersionKey))
  }

  /** The `(repo, current_version)` pairs `processGitRepo` is called with, in order. */
  function GitCalls(ms: seq<Record>, resolve: Resolver): seq<(string, string)>
    decreases |ms|
  {
    if ms == [] then []
    else
      var n := |ms| - 1;
      GitCalls(ms[..n], resolve)
      + (if Get(ms[n], RepoKey) in UpdateLoop(ms[..n], resolve).written then []
         else [(Get(ms[n], RepoKey), Get(ms[n], CurrentVersionKey))])
  }

  /** What the loop leaves in place of module `i`. */
  function Outcome(ms: seq<Record>, i: nat, resolve: Resolver): Record
    requires i < |ms|
  {
    if Resolved(ms, i, resolve) && |Answer(ms, i, resolve).0| > 0
    then ms[i][UpdatesAvailableKey := Answer(ms, i, resolve).0] else ms[i]
  }

  /** Taking a longer prefix first changes nothing about module `i`. */
  lemma ResolvedInPrefix(ms: seq<Record>, n: nat, i: nat, resolve: Resolver)
    requires i < n <= |ms|
    ensures ms[..n][i] == ms[i] && ms[..n][..i] == ms[..i]
    ensures Resolved(ms[..n], i, resolve) == Resolved(ms, i, resolve)
    ensures Answer(ms[..n], i, resolve) == Answer(ms, i, resolve)
    ensures Outcome(ms[..n], i, resolve) == Outcome(ms, i, resolve)
  {
    assert ms[..n][..i] == ms[..i];
  }

  /** The loop yields one record per module. */
  lemma {:induction false} LoopLength(ms: seq<Record>, resolve: Resolver)
    ensures |UpdateLoop(ms, resolve).modules| == |ms|
    decreases |ms|
  {
    if ms != [] {
      LoopLength(ms[..|ms| - 1], resolve);
    }
  }

  /** The loop over a prefix of `ms` is the loop over `ms`, cut short: the records so far are final. */
  lemma {:induction false} LoopPrefix(ms: seq<Record>, k: nat, resolve: Resolver)
    requires k <= |ms|
    ensures |UpdateLoop(ms, resolve).modules| == |ms|
    ensures UpdateLoop(ms[..k], resolve).modules == UpdateLoop(ms, resolve).modules[..k]
    ensures forall r :: r in UpdateLoop(ms[..k], resolve).written ==> r in UpdateLoop(ms, resolve).written
    ensures forall row :: row in UpdateLoop(ms[..k], resolve).failures ==> row in UpdateLoop(ms, resolve).failures
    decreases |ms|
  {
    LoopLength(ms, resolve);
    if k == |ms| {
      assert ms[..k] == ms;
    } else {
      var n := |ms| - 1;
      LoopPrefix(ms[..n], k, resolve);
      assert ms[..n][..k] == ms[..k];
    }
  }

  /**
   * Per module, the loop leaves the record as it was, except that a
   * resolved module with a non-empty tag string gets `updates_available`
   * set to it.
   */
  lemma LoopModules(ms: seq<Record>, resolve: Resolver, i: nat)
    requires i < |ms|
    ensures |UpdateLoop(ms, resolve).modules| == |ms|
    ensures UpdateLoop(ms, resolve).modules[i] ==
      if Resolved(ms, i, resolve) && |Answer(ms, i, resolve).0| > 0
      then ms[i][UpdatesAvailableKey := Answer(ms, i, resolve).0] else ms[i]
  {
    var p := ms[..i + 1];
    LoopPrefix(ms, i + 1, resolve);
    LoopLength(ms[..i], resolve);
    assert p[..i] == ms[..i] && p[i] == ms[i];
    assert UpdateLoop(p, resolve) == Step(UpdateLoop(ms[..i], resolve), ms[i], resolve);
    assert UpdateLoop(ms, resolve).modules[i] == UpdateLoop(p, resolve).modules[i];
  }

  /**
   * The list keeps its length and order, and no record loses or changes
   * any key other than `updates_available`; `repo` and `current_version`
   * in particular stay as they were.
   */
  lemma LoopKeepsRepoAndVersion(ms: seq<Record>, resolve: Resolver, i: nat)
    requires i < |ms|
    ensures |UpdateLoop(ms, resolve).modules| == |ms|
    ensures UpdateLoop(ms, resolve).modules[i] - {UpdatesAvailableKey} == ms[i] - {UpdatesAvailableKey}
    ensures Get(UpdateLoop(ms, resolve).modules[i], RepoKey) == Get(ms[i], RepoKey)
    ensures Get(UpdateLoop(ms, resolve).modules[i], CurrentVersionKey) == Get(ms[i], CurrentVersionKey)
  {
    LoopModules(ms, resolve, i);
  }

  /** No element of `w` occurs twice. */
  predicate NoDuplicates(w: seq<string>)
  {
    forall a, b :: 0 <= a < b < |w| ==> w[a] != w[b]
  }

  /** `listWritten` never holds a repo twice. */
  lemma {:induction false} WrittenDistinct(ms: seq<Record>, resolve: Resolver)
    ensures NoDuplicates(UpdateLoop(ms, resolve).written)
    decreases |ms|
  {
    if ms != [] {
      var n := |ms| - 1;
      WrittenDistinct(ms[..n], resolve);
      var st := UpdateLoop(ms[..n], resolve);
      var repo := Get(ms[n], RepoKey);
      var w := UpdateLoop(ms, resolve).written;
      assert UpdateLoop(ms, resolve) == Step(st, ms[n], resolve);
      assert w == st.written || (repo !in st.written && w == st.written + [repo]);
      forall a, b | 0 <= a < b < |w|
        ensures w[a] != w[b]
      {
        assert w[a] == st.written[a];
        if b == |st.written| {
          assert w[b] == repo && repo !in st.written;
          assert st.written[a] in st.written;
        } else {
          assert w[b] == st.written[b];
        }
      }
    }
  }

  /** A resolved module with a non-empty tag string has its repo written. */
  lemma WrittenComplete(ms: seq<Record>, resolve: Resolver, i: nat)
    requires i < |ms| && Resolved(ms, i, resolve) && |Answer(ms, i, resolve).0| > 0
    ensures Get(ms[i], RepoKey) in UpdateLoop(ms, resolve).written
  {
    var p := ms[..i + 1];
    LoopPrefix(ms, i + 1, resolve);
    LoopLength(ms[..i], resolve);
    assert p[..i] == ms[..i] && p[i] == ms[i];
    assert UpdateLoop(p, resolve) == Step(UpdateLoop(ms[..i], resolve), ms[i], resolve);
    assert UpdateLoop(ms, resolve).modules[i] == UpdateLoop(p, resolve).modules[i];
  }

  /** Every written repo is that of a resolved module whose tag string is non-empty. */
  lemma {:induction false} WrittenSound(ms: seq<Record>, resolve: Resolver, r: string) returns (i: nat)
    requires r in UpdateLoop(ms, resolve).written
    ensures i < |ms| && Get(ms[i], RepoKey) == r && Resolved(ms, i, resolve) && |Answer(ms, i, resolve).0| > 0
    decreases |ms|
  {
    var n := |ms| - 1;
    if r in UpdateLoop(ms[..n], resolve).written {
      i := WrittenSound(ms[..n], resolve, r);
      ResolvedInPrefix(ms, n, i, resolve);
    } else {
      i := n;
      assert ms[..n] == ms[..i];
    }
  }

  /**
   * De-duplication is keyed on the repo alone: once a module's repo has
   * been written, a later module with the same repo, whatever its
   * `current_version`, is neither resolved nor marked.
   */
  lemma SkipAfterWritten(ms: seq<Record>, resolve: Resolver, i: nat, j: nat)
    requires i < j < |ms| && Get(ms[i], RepoKey) == Get(ms[j], RepoKey)
    requires Resolved(ms, i, resolve) && |Answer(ms, i, resolve).0| > 0
    ensures !Resolved(ms, j, resolve)
    ensures |UpdateLoop(ms, resolve).modules| == |ms| && UpdateLoop(ms, resolve).modules[j] == ms[j]
  {
    ResolvedInPrefix(ms, j, i, resolve);
    WrittenComplete(ms[..j], resolve, i);
    LoopModules(ms, resolve, j);
  }

  /** Each iteration adds at most one call, one failure row and one written repo, the last two only with a call. */
  lemma {:induction false} LoopCounts(ms: seq<Record>, resolve: Resolver)
    ensures |UpdateLoop(ms, resolve).failures| <= |GitCalls(ms, resolve)| <= |ms|
    ensures |UpdateLoop(ms, resolve).written| <= |GitCalls(ms, resolve)|
    decreases |ms|
  {
    if ms != [] {
      LoopCounts(ms[..|ms| - 1], resolve);
    }
  }

  /** The failure rows of a prefix of the loop are a prefix of the final ones. */
  lemma {:induction false} FailuresGrow(ms: seq<Record>, k: nat, resolve: Resolver)
    requires k <= |ms|
    ensures var f := UpdateLoop(ms[..k], resolve).failures;
      |f| <= |UpdateLoop(ms, resolve).failures| && UpdateLoop(ms, resolve).failures[..|f|] == f
    decreases |ms|
  {
    if k == |ms| {
      assert ms[..k] == ms;
    } else {
      var n := |ms| - 1;
      FailuresGrow(ms[..n], k, resolve);
      assert ms[..n][..k] == ms[..k];
      var f := UpdateLoop(ms[..n], resolve).failures;
      var g := UpdateLoop(ms, resolve).failures;
      assert UpdateLoop(ms, resolve) == Step(UpdateLoop(ms[..n], resolve), ms[n], resolve);
      assert g[..|f|] == f;
    }
  }

  /** The loop over `ms[..i + 1]` is one more step after the loop over `ms[..i]`. */
  lemma StepAt(ms: seq<Record>, i: nat, resolve: Resolver)
    requires i < |ms|
    ensures UpdateLoop(ms[..i + 1], resolve) == Step(UpdateLoop(ms[..i], resolve), ms[i], resolve)
  {
    var pre := ms[..i + 1];
    assert pre[..i] == ms[..i];
    assert pre[i] == ms[i];
  }

  /** A failed call of a resolved module appends its row. */
  lemma FailureAt(ms: seq<Record>, i: nat, resolve: Resolver)
    requires i < |ms| && Resolved(ms, i, resolve) && Answer(ms, i, resolve).1.Some?
    ensures UpdateLoop(ms[..i + 1], resolve).failures ==
      UpdateLoop(ms[..i], resolve).failures + [FailureRow(ms[i], Answer(ms, i, resolve).0, Answer(ms, i, resolve).1.value)]
  {
    StepAt(ms, i, resolve);
  }

  /** A resolved module whose call failed has its failure row, at index `k`. */
  lemma FailureComplete(ms: seq<Record>, resolve: Resolver, i: nat) returns (k: nat)
    requires i < |ms| && Resolved(ms, i, resolve) && Answer(ms, i, resolve).1.Some?
    ensures k < |UpdateLoop(ms, resolve).failures|
    ensures UpdateLoop(ms, resolve).failures[k] == FailureRow(ms[i], Answer(ms, i, resolve).0, Answer(ms, i, resolve).1.value)
  {
    FailuresGrow(ms, i + 1, resolve);
    FailureAt(ms, i, resolve);
    var f := UpdateLoop(ms[..i + 1], resolve).failures;
    k := |f| - 1;
    assert UpdateLoop(ms, resolve).failures[k] == f[k];
  }

  /** Every failure row is that of a resolved module whose call failed. */
  lemma {:induction false} FailureSound(ms: seq<Record>, resolve: Resolver, row: Record) returns (i: nat)
    requires row in UpdateLoop(ms, resolve).failures
    ensures i < |ms| && Resolved(ms, i, resolve) && Answer(ms, i, resolve).1.Some?
    ensures row == FailureRow(ms[i], Answer(ms, i, resolve).0, Answer(ms, i, resolve).1.value)
    decreases |ms|
  {
    var n := |ms| - 1;
    if row in UpdateLoop(ms[..n], resolve).failures {
      i := FailureSound(ms[..n], resolve, row);
      ResolvedInPrefix(ms, n, i, resolve);
    } else {
      i := n;
      assert ms[..n] == ms[..i];
    }
  }

  /**
   * With the program's resolver, every failure row has an empty
   * `updates_available` and an `error` that starts with the cloning
   * prefix, and a module whose clone failed is not marked.
   */
  lemma GitFailures(ms: seq<Record>, clone: string -> CloneOutcome, prefix: string)
    ensures forall row :: row in UpdateLoop(ms, GitResolver(clone, prefix)).failures ==>
      Get(row, UpdatesAvailableKey) == "" && HasPrefix(Get(row, ErrorKey), prefix)
    ensures forall i :: 0 <= i < |ms| && Answer(ms, i, GitResolver(clone, prefix)).1.Some? ==>
      Outcome(ms, i, GitResolver(clone, prefix)) == ms[i]
  {
    var resolve := GitResolver(clone, prefix);
    forall row | row in UpdateLoop(ms, resolve).failures
      ensures Get(row, UpdatesAvailableKey) == "" && HasPrefix(Get(row, ErrorKey), prefix)
    {
      var i := FailureSound(ms, resolve, row);
      ProcessGitRepoOutcomes(Get(ms[i], RepoKey), Get(ms[i], CurrentVersionKey), clone, prefix);
    }
    forall i | 0 <= i < |ms| && Answer(ms, i, resolve).1.Some?
      ensures Outcome(ms, i, resolve) == ms[i]
    {
      ProcessGitRepoOutcomes(Get(ms[i], RepoKey), Get(ms[i], CurrentVersionKey), clone, prefix);
    }
  }

  /** A resolved module's pair is among the calls. */
  lemma GitCallsComplete(ms: seq<Record>, resolve: Resolver, i: nat)
    requires i < |ms| && Resolved(ms, i, resolve)
    ensures (Get(ms[i], RepoKey), Get(ms[i], CurrentVersionKey)) in GitCalls(ms, resolve)
  {
    GitCallsGrow(ms, i + 1, resolve);
    GitCallAt(ms, i, resolve);
    var c := (Get(ms[i], RepoKey), Get(ms[i], CurrentVersionKey));
    var g := GitCalls(ms[..i + 1], resolve);
    var all := GitCalls(ms, resolve);
    assert all[|g| - 1] == g[|g| - 1] == c;
  }

  /** A resolved module adds its call. */
  lemma GitCallAt(ms: seq<Record>, i: nat, resolve: Resolver)
    requires i < |ms| && Resolved(ms, i, resolve)
    ensures GitCalls(ms[..i + 1], resolve) == GitCalls(ms[..i], resolve) + [(Get(ms[i], RepoKey), Get(ms[i], CurrentVersionKey))]
  {
    var pre := ms[..i + 1];
    assert pre[..i] == ms[..i];
    assert pre[i] == ms[i];
  }

  /** The calls of a prefix of the loop are a prefix of the final ones. */
  lemma {:induction false} GitCallsGrow(ms: seq<Record>, k: nat, resolve: Resolver)
    requires k <= |ms|
    ensures var g := GitCalls(ms[..k], resolve);
      |g| <= |GitCalls(ms, resolve)| && GitCalls(ms, resolve)[..|g|] == g
    decreases |ms|
  {
    if k == |ms| {
      assert ms[..k] == ms;
    } else {
      var n := |ms| - 1;
      GitCallsGrow(ms[..n], k, resolve);
      assert ms[..n][..k] == ms[..k];
      var g0 := GitCalls(ms[..n], resolve);
      assert GitCalls(ms, resolve)[..|g0|] == g0;
    }
  }

  /** Every call is the pair of a resolved module. */
  lemma {:induction false} GitCallsSound(ms: seq<Record>, resolve: Resolver, c: (string, string)) returns (i: nat)
    requires c in GitCalls(ms, resolve)
    ensures i < |ms| && Resolved(ms, i, resolve) && c == (Get(ms[i], RepoKey), Get(ms[i], CurrentVersionKey))
    decreases |ms|
  {
    var n := |ms| - 1;
    if c in GitCalls(ms[..n], resolve) {
      i := GitCallsSound(ms[..n], resolve, c);
      ResolvedInPrefix(ms, n, i, resolve);
    } else {
      i := n;
      assert ms[..n] == ms[..i];
    }
  }

  /**
   * Two modules with the same repo and different versions: when the first
   * has updates, the second is never looked up and keeps its record.
   */
  lemma SameRepoOtherVersion(repo: string, v1: string, v2: string, resolve: Resolver)
    requires |resolve(repo, v1).0| > 0
    ensures var ms := [ModuleRecord(repo, v1), ModuleRecord(repo, v2)];
      && GitCalls(ms, resolve) == [(repo, v1)]
      && UpdateLoop(ms, resolve).modules[1] == ms[1]
  {
    var ms := [ModuleRecord(repo, v1), ModuleRecord(repo, v2)];
    assert Get(ms[0], RepoKey) == repo && Get(ms[1], RepoKey) == repo;
    assert Get(ms[0], CurrentVersionKey) == v1;
    assert ms[..1] == [ms[0]] && ms[..1][..0] == [];
    assert UpdateLoop(ms[..1], resolve).written == [repo];
    assert GitCalls(ms[..1], resolve) == [(repo, v1)];
  }

  /** What the `WalkDir` callback returns for an entry. */
  datatype Decision =
    | Pass   // return nil without scanning: a file or an ignored directory
    | Prune  // return fs.SkipDir: the directory and everything below it are skipped
    | Scan   // scan the directory, then return nil

  const PathSeparator := '/'

  /**
   * The callback as written, for the entry at `path` named `name`, with
   * `rootDir` already stripped of trailing slashes.
   */
  function WalkDecisionAsWritten(rootDir: string, path: string, name: string, isDir: bool, ignore: seq<string>, depth: int): (d: Decision)
    ensures d == Scan <==> isDir && name !in ignore && Count(path, PathSeparator) <= Count(rootDir, PathSeparator) + depth
    ensures d == Prune <==> isDir && name !in ignore && Count(path, PathSeparator) > Count(rootDir, PathSeparator) + depth
    ensures name in ignore ==> d == Pass
  {
    if isDir && name !in ignore then
      if Count(path, PathSeparator) > Count(rootDir, PathSeparator) + depth then Prune else Scan
    else Pass
  }

  /**
   * As written, depth -1 (documented as a full extraction) prunes the root
   * itself, so nothing is scanned: for example the root "infra".
   */
  lemma DepthMinusOnePrunesRoot(rootDir: string, name: string, ignore: seq<string>)
    requires name !in ignore
    ensures WalkDecisionAsWritten(rootDir, rootDir, name, true, ignore, -1) == Prune
  {
  }

  lemma DepthMinusOneExample()
    ensures WalkDecisionAsWritten("infra", "infra", "infra", true, [], -1) == Prune
  {
    DepthMinusOnePrunesRoot("infra", "infra", []);
  }

  /**
   * The callback as intended: a negative depth puts no bound on the walk;
   * otherwise it is the callback as written.
   */
  function WalkDecision(rootDir: string, path: string, name: string, isDir: bool, ignore: seq<string>, depth: int): (d: Decision)
    ensures d == Scan <==> isDir && name !in ignore && (depth < 0 || Count(path, PathSeparator) <= Count(rootDir, PathSeparator) + depth)
    ensures d == Prune <==> isDir && name !in ignore && 0 <= depth && Count(path, PathSeparator) > Count(rootDir, PathSeparator) + depth
    ensures name in ignore ==> d == Pass
  {
    if depth < 0 then (if isDir && name !in ignore then Scan else Pass)
    else WalkDecisionAsWritten(rootDir, path, name, isDir, ignore, depth)
  }

  /** The corrected rule agrees with the written one for every depth from 0 up. */
  lemma WalkDecisionAgrees(rootDir: string, path: string, name: string, isDir: bool, ignore: seq<string>, depth: int)
    requires depth >= 0
    ensures WalkDecision(rootDir, path, name, isDir, ignore, depth) == WalkDecisionAsWritten(rootDir, path, name, isDir, ignore, depth)
  {
  }

  /** Either rule, selected by `asWritten`, written out as one test: what the callback runs. */
  lemma DepthRuleChoice(rootDir: string, path: string, name: string, isDir: bool, ignore: seq<string>, depth: int, asWritten: bool)
    ensures (if asWritten then WalkDecisionAsWritten(rootDir, path, name, isDir, ignore, depth)
             else WalkDecision(rootDir, path, name, isDir, ignore, depth))
            == if isDir && name !in ignore then
                 if (asWritten || 0 <= depth) && Count(path, PathSeparator) > Count(rootDir, PathSeparator) + depth then Prune else Scan
               else Pass
  {
  }

  /** An ignored directory is never pruned: the walk still visits what is below it. */
  lemma IgnoredNotPruned(rootDir: string, path: string, name: string, ignore: seq<string>, depth: int)
    requires name in ignore
    ensures WalkDecision(rootDir, path, name, true, ignore, depth) == Pass
    ensures WalkDecisionAsWritten(rootDir, path, name, true, ignore, depth) == Pass
  {
  }
}
