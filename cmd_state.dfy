/**
 * The package state of `cmd` and the code that updates it in place: the
 * `map[string]string` module records (objects, since Go maps are
 * references and the update loop writes into them), the package-level
 * lists `moduleRepoList`, `modulesListTotal` and `failureListTotal`,
 * `processRepoLinksAndTags`, `checkForModuleSourceUpdates` and the
 * `WalkDir` callback of `Run`.
 *
 * Each method is proved against the value-level definitions of
 * ReadFiles and CheckForUpdates, whose properties are proved there.
 */
module CmdState {
  import opened Wrappers
  import opened GoStrings
  import opened ReadGitFiles
  import opened Patterns
  import opened ReadFiles
  import opened CheckForUpdates

  /** One Go `map[string]string` module record, shared by every list that holds it. */
  class ModuleMap {
    var entries: Record

    /** `map[string]string{"repo": repo, "current_version": tag}`. */
    constructor (repo: string, tag: string)
      ensures entries == ModuleRecord(repo, tag)
    {
      entries := ModuleRecord(repo, tag);
    }
  }

  /** The records the maps of `list` hold now, in order. */
  function Contents(list: seq<ModuleMap>): (r: seq<Record>)
    reads list
    ensures |r| == |list|
    ensures forall k :: 0 <= k < |list| ==> r[k] == list[k].entries
    decreases |list|
  {
    if list == [] then [] else Contents(list[..|list| - 1]) + [list[|list| - 1].entries]
  }

  /** Appending a map appends its record. */
  lemma ContentsAppend(list: seq<ModuleMap>, m: ModuleMap)
    ensures Contents(list + [m]) == Contents(list) + [m.entries]
  {
    assert (list + [m])[..|list|] == list;
  }

  /** Concatenation is associative. */
  lemma AppendAssoc<T>(a: seq<T>, b: seq<T>, c: seq<T>)
    ensures a + (b + c) == a + b + c
  {
  }

  /**
   * What the program reads from outside: directory listings, file lines,
   * the order `maps.Keys` yields on each line, `url.Parse`, and cloning.
   */
  datatype Env = Env(
    readDir: string -> seq<string>,        // os.ReadDir: the entry names of a directory
    readLines: string -> seq<string>,      // os.Open and bufio.Scanner: the lines of a file, none for a directory
    keyOrder: (string, nat) -> seq<Key>,   // the key order of moduleSourceRegexMap on line l of a file
    parseUrl: string -> ParsedUrl,         // url.Parse
    clone: string -> CloneOutcome,         // git.Clone and the tag listing
    prefix: string)                        // CloningErrorPrefix

  /** The key order on the lines of `file`. */
  function KeyOrderIn(env: Env, file: string): nat -> seq<Key>
  {
    (l: nat) => env.keyOrder(file, l)
  }

  /** The records a directory contributes: the records of each entry `path + "/" + name`, in entry order. */
  function DirRecords(path: string, names: seq<string>, env: Env): seq<Record>
    decreases |names|
  {
    if names == [] then []
    else
      var n := |names| - 1;
      var fullPath := path + "/" + names[n];
      DirRecords(path, names[..n], env) + FileRecords(env.readLines(fullPath), KeyOrderIn(env, fullPath), env.parseUrl)
  }

  /** One more entry appends that entry's records. */
  lemma DirRecordsStep(path: string, names: seq<string>, env: Env, i: nat)
    requires i < |names|
    ensures DirRecords(path, names[..i + 1], env) == DirRecords(path, names[..i], env) +
      FileRecords(env.readLines(path + "/" + names[i]), KeyOrderIn(env, path + "/" + names[i]), env.parseUrl)
  {
    var pre := names[..i + 1];
    assert pre[..i] == names[..i] && pre[i] == names[i];
  }

  /** Every record of a directory is a `{repo, current_version}` pair with a non-empty repo. */
  lemma {:induction false} DirRecordsShape(path: string, names: seq<string>, env: Env)
    ensures forall r :: r in DirRecords(path, names, env) ==> r.Keys == {RepoKey, CurrentVersionKey} && r[RepoKey] != ""
    decreases |names|
  {
    if names != [] {
      var n := |names| - 1;
      var fullPath := path + "/" + names[n];
      DirRecordsShape(path, names[..n], env);
      CollectRecordsShape(env.readLines(fullPath), LineRef(KeyOrderIn(env, fullPath), env.parseUrl));
    }
  }

  /** A directory whose entries have no lines contributes no records. */
  lemma {:induction false} DirRecordsEmpty(path: string, names: seq<string>, env: Env)
    requires forall k :: 0 <= k < |names| ==> env.readLines(path + "/" + names[k]) == []
    ensures DirRecords(path, names, env) == []
    decreases |names|
  {
    if names != [] {
      var n := |names| - 1;
      assert forall k :: 0 <= k < n ==> names[..n][k] == names[k];
      DirRecordsEmpty(path, names[..n], env);
      assert env.readLines(path + "/" + names[n]) == [];
    }
  }

  /** `preProcessingSourceString` on line `l` of `file`, with that line's key order. */
  method ScanLine(env: Env, file: string, l: nat, line: string) returns (repo: string, tag: string)
    ensures (repo, tag) == LineRef(KeyOrderIn(env, file), env.parseUrl)(l, line)
  {
    repo, tag := PreProcessingSourceString(line, env.keyOrder(file, l), env.parseUrl);
  }

  /**
   * One iteration of the loop in `checkForModuleSourceUpdates`, on the
   * map `entry`, with `listWritten0` and `failures0` the loop's lists so
   * far and `st` the loop state they belong to.
   */
  method UpdateModule(entry: ModuleMap, env: Env, listWritten0: seq<string>, failures0: seq<Record>, ghost st: LoopState, ghost resolve: Resolver)
    returns (listWritten: seq<string>, failureList: seq<Record>, ghost next: LoopState)
    requires resolve == GitResolver(env.clone, env.prefix)
    requires st.written == listWritten0 && st.failures == failures0
    modifies entry
    ensures next == Step(st, old(entry.entries), resolve)
    ensures next.modules == st.modules + [entry.entries] && next.failures == failureList && next.written == listWritten
  {
    next := Step(st, entry.entries, resolve);
    listWritten, failureList := listWritten0, failures0;
    var repo := Get(entry.entries, RepoKey);
    if repo !in listWritten {
      var tagsList, err := ProcessGitRepo(repo, Get(entry.entries, CurrentVersionKey), env.clone, env.prefix);
      if err.Some? {
        failureList := failureList + [FailureRow(entry.entries, tagsList, err.value)];
      }
      if |tagsList| > 0 {
        entry.entries := entry.entries[UpdatesAvailableKey := tagsList];
        listWritten := listWritten + [repo];
      }
    }
  }

  /**
   * The loop of `checkForModuleSourceUpdates` over the maps `modules`,
   * from empty `listWritten` and `failureList`: it leaves in the maps the
   * records UpdateLoop computes and returns its failure rows.
   */
  method UpdateModules(modules: seq<ModuleMap>, env: Env, ghost resolve: Resolver) returns (failureList: seq<Record>)
    requires resolve == GitResolver(env.clone, env.prefix)
    requires forall a, b :: 0 <= a < b < |modules| ==> modules[a] != modules[b]
    modifies modules
    ensures var result := UpdateLoop(old(Contents(modules)), resolve);
      Contents(modules) == result.modules && failureList == result.failures
  {
    ghost var before := Contents(modules);
    failureList := [];
    var listWritten: seq<string> := [];
    ghost var st := LoopState([], [], []);
    var i := 0;
    while i < |modules|
      invariant 0 <= i <= |modules| == |before|
      invariant st == UpdateLoop(before[..i], resolve)
      invariant failureList == st.failures && listWritten == st.written && |st.modules| == i
      invariant forall k :: 0 <= k < i ==> modules[k].entries == st.modules[k]
      invariant forall k :: i <= k < |modules| ==> modules[k].entries == before[k]
    {
      StepAt(before, i, resolve);
      ghost var prev := st;
      listWritten, failureList, st := UpdateModule(modules[i], env, listWritten, failureList, st, resolve);
      forall k | 0 <= k < i
        ensures modules[k].entries == st.modules[k]
      {
        assert modules[k] != modules[i];
        assert st.modules[k] == prev.modules[k];
      }
      forall k | i < k < |modules|
        ensures modules[k].entries == before[k]
      {
        assert modules[i] != modules[k];
      }
      i := i + 1;
    }
    assert before[..i] == before;
  }

  /** The package-level variables of `cmd`. */
  class Globals {
    var moduleRepoList: seq<ModuleMap>
    var modulesListTotal: seq<ModuleMap>
    var failureListTotal: seq<Record>
    /** The position of each map object in `moduleRepoList`. */
    ghost var Index: map<ModuleMap, nat>

    /** The program starts with all three lists empty. */
    constructor ()
      ensures moduleRepoList == [] && modulesListTotal == [] && failureListTotal == []
      ensures Valid()
    {
      moduleRepoList := [];
      modulesListTotal := [];
      failureListTotal := [];
      Index := map[];
    }

    /**
     * No map object is in `moduleRepoList` twice, so writing through one
     * entry leaves the others as they are: `Index` gives each map its
     * one position.
     */
    ghost predicate Valid()
      reads this`moduleRepoList, this`Index
    {
      forall k :: 0 <= k < |moduleRepoList| ==> moduleRepoList[k] in Index && Index[moduleRepoList[k]] == k
    }

    /**
     * `processRepoLinksAndTags(path)`: lists the directory after trimming
     * its slashes, reads every entry `path + "/" + name` line by line, and
     * appends a new map for every line whose repo is non-empty to the
     * package list, which is returned whole.
     */
    method ProcessRepoLinksAndTags(path: string, env: Env) returns (list: seq<ModuleMap>)
      requires Valid()
      modifies this
      ensures Valid()
      ensures old(moduleRepoList) <= moduleRepoList
      ensures old(Index.Keys) <= Index.Keys && fresh(Index.Keys - old(Index.Keys))
      ensures Contents(moduleRepoList) == old(Contents(moduleRepoList)) + DirRecords(path, env.readDir(FixTrailingSlashForPath(path)), env)
      ensures modulesListTotal == old(modulesListTotal) && failureListTotal == old(failureListTotal)
      ensures list == moduleRepoList
    {
      var files := env.readDir(FixTrailingSlashForPath(path));
      ghost var c0 := Contents(moduleRepoList);
      ghost var l0 := moduleRepoList;
      ghost var keys0 := Index.Keys;
      var i := 0;
      while i < |files|
        invariant 0 <= i <= |files|
        invariant Valid()
        invariant l0 <= moduleRepoList && keys0 <= Index.Keys && fresh(Index.Keys - keys0)
        invariant Contents(moduleRepoList) == c0 + DirRecords(path, files[..i], env)
        invariant modulesListTotal == old(modulesListTotal) && failureListTotal == old(failureListTotal)
      {
        ScanEntry(path, files, i, env, l0, keys0, c0);
        i := i + 1;
      }
      assert files[..i] == files;
      list := moduleRepoList;
    }

    /**
     * One iteration of the entry loop of `processRepoLinksAndTags`: the
     * lines of entry `files[i]` of the directory `path`.  `l0`, `keys0`
     * and `c0` are the list, the maps and the records before the loop.
     */
    method ScanEntry(path: string, files: seq<string>, i: nat, env: Env,
                     ghost l0: seq<ModuleMap>, ghost keys0: set<ModuleMap>, ghost c0: seq<Record>)
      requires i < |files| && Valid()
      requires l0 <= moduleRepoList && keys0 <= Index.Keys
      requires Contents(moduleRepoList) == c0 + DirRecords(path, files[..i], env)
      modifies this
      ensures Valid()
      ensures l0 <= moduleRepoList && keys0 <= Index.Keys && fresh(Index.Keys - old(Index.Keys))
      ensures Contents(moduleRepoList) == c0 + DirRecords(path, files[..i + 1], env)
      ensures modulesListTotal == old(modulesListTotal) && failureListTotal == old(failureListTotal)
    {
      var fullPath := path + "/" + files[i];
      ScanFile(fullPath, env);
      DirRecordsStep(path, files, env, i);
      AppendAssoc(c0, DirRecords(path, files[..i], env), FileRecords(env.readLines(fullPath), KeyOrderIn(env, fullPath), env.parseUrl));
    }

    /** `moduleRepoList = append(moduleRepoList, map[string]string{"repo": repo, "current_version": tag})`. */
    method AppendModule(repo: string, tag: string)
      requires Valid()
      modifies this
      ensures Valid()
      ensures old(moduleRepoList) <= moduleRepoList
      ensures old(Index.Keys) <= Index.Keys && fresh(Index.Keys - old(Index.Keys))
      ensures Contents(moduleRepoList) == old(Contents(moduleRepoList)) + [ModuleRecord(repo, tag)]
      ensures modulesListTotal == old(modulesListTotal) && failureListTotal == old(failureListTotal)
    {
      var m := new ModuleMap(repo, tag);
      ContentsAppend(moduleRepoList, m);
      moduleRepoList := moduleRepoList + [m];
      Index := Index[m := |moduleRepoList| - 1];
    }

    /**
     * One iteration of the line loop of `processRepoLinksAndTags`: line
     * `l` of `lines`, the lines of `fullPath`, appends a new map when its
     * repo is non-empty.  `l0`, `keys0` and `c0` are the list, the maps
     * and the records before the loop.
     */
    method ScanFileLine(env: Env, fullPath: string, lines: seq<string>, l: nat,
                        ghost l0: seq<ModuleMap>, ghost keys0: set<ModuleMap>, ghost c0: seq<Record>)
      requires l < |lines| && Valid()
      requires l0 <= moduleRepoList && keys0 <= Index.Keys
      requires Contents(moduleRepoList) == c0 + CollectRecords(lines[..l], LineRef(KeyOrderIn(env, fullPath), env.parseUrl))
      modifies this
      ensures Valid()
      ensures l0 <= moduleRepoList && keys0 <= Index.Keys && fresh(Index.Keys - old(Index.Keys))
      ensures Contents(moduleRepoList) == c0 + CollectRecords(lines[..l + 1], LineRef(KeyOrderIn(env, fullPath), env.parseUrl))
      ensures modulesListTotal == old(modulesListTotal) && failureListTotal == old(failureListTotal)
    {
      ghost var ref := LineRef(KeyOrderIn(env, fullPath), env.parseUrl);
      var repo, tag := ScanLine(env, fullPath, l, lines[l]);
      CollectRecordsStep(lines, ref, l);
      if repo != "" {
        AppendModule(repo, tag);
        AppendAssoc(c0, CollectRecords(lines[..l], ref), [ModuleRecord(repo, tag)]);
      }
    }

    /** The line loop of `processRepoLinksAndTags` for the file at `fullPath`: one new map per line with a repo. */
    method ScanFile(fullPath: string, env: Env)
      requires Valid()
      modifies this
      ensures Valid()
      ensures old(moduleRepoList) <= moduleRepoList
      ensures old(Index.Keys) <= Index.Keys && fresh(Index.Keys - old(Index.Keys))
      ensures Contents(moduleRepoList) == old(Contents(moduleRepoList)) + FileRecords(env.readLines(fullPath), KeyOrderIn(env, fullPath), env.parseUrl)
      ensures modulesListTotal == old(modulesListTotal) && failureListTotal == old(failureListTotal)
    {
      var lines := env.readLines(fullPath);
      ghost var c0 := Contents(moduleRepoList);
      ghost var l0 := moduleRepoList;
      ghost var keys0 := Index.Keys;
      var l := 0;
      while l < |lines|
        invariant 0 <= l <= |lines|
        invariant Valid()
        invariant l0 <= moduleRepoList && keys0 <= Index.Keys && fresh(Index.Keys - keys0)
        invariant Contents(moduleRepoList) == c0 + CollectRecords(lines[..l], LineRef(KeyOrderIn(env, fullPath), env.parseUrl))
        invariant modulesListTotal == old(modulesListTotal) && failureListTotal == old(failureListTotal)
      {
        ScanFileLine(env, fullPath, lines, l, l0, keys0, c0);
        l := l + 1;
      }
      assert lines[..l] == lines;
    }

    /**
     * `checkForModuleSourceUpdates(path)`: collects the directory's
     * records onto the package list, then runs the update loop over the
     * whole list, writing `updates_available` into the shared maps.
     * Maps from earlier directories are in the list too, so they are
     * looked up and written again.
     */
    method CheckForModuleSourceUpdates(path: string, env: Env) returns (modules: seq<ModuleMap>, failureList: seq<Record>)
      requires Valid()
      modifies this, Index.Keys
      ensures Valid()
      ensures old(Index.Keys) <= Index.Keys && fresh(Index.Keys - old(Index.Keys))
      ensures modules == moduleRepoList
      ensures old(moduleRepoList) <= moduleRepoList
      ensures modulesListTotal == old(modulesListTotal) && failureListTotal == old(failureListTotal)
      ensures var fixed := FixTrailingSlashForPath(path);
        var result := UpdateLoop(old(Contents(moduleRepoList)) + DirRecords(fixed, env.readDir(fixed), env), GitResolver(env.clone, env.prefix));
        Contents(modules) == result.modules && failureList == result.failures
    {
      var fixed := FixTrailingSlashForPath(path);
      FixTrailingSlashIdempotent(path);
      modules := ProcessRepoLinksAndTags(fixed, env);
      forall a, b | 0 <= a < b < |modules|
        ensures modules[a] != modules[b]
      {
        assert Index[modules[a]] == a;
      }
      failureList := UpdateModules(modules, env, GitResolver(env.clone, env.prefix));
    }

    /**
     * The `WalkDir` callback of `Run` for the entry at `path` named
     * `name`.  `asWritten` selects the depth rule: the one the program
     * applies, or the one it documents, under which a negative depth puts
     * no bound on the walk.  `modules0` and
     * `failures0` are `Run`'s `modules` and `failureList` before the
     * call; a scanned directory replaces them and appends them to the
     * running totals.
     */
    method VisitEntry(rootDir: string, path: string, name: string, isDir: bool, ignore: seq<string>, depth: int,
                      asWritten: bool, env: Env, modules0: seq<ModuleMap>, failures0: seq<Record>)
      returns (d: Decision, modules: seq<ModuleMap>, failureList: seq<Record>)
      requires Valid()
      modifies this, Index.Keys
      ensures Valid()
      ensures old(Index.Keys) <= Index.Keys && fresh(Index.Keys - old(Index.Keys))
      ensures d == if asWritten then WalkDecisionAsWritten(rootDir, path, name, isDir, ignore, depth)
                   else WalkDecision(rootDir, path, name, isDir, ignore, depth)
      ensures d != Scan ==> modules == modules0 && failureList == failures0
      ensures d != Scan ==> moduleRepoList == old(moduleRepoList) && modulesListTotal == old(modulesListTotal) && failureListTotal == old(failureListTotal)
      ensures d != Scan ==> Contents(moduleRepoList) == old(Contents(moduleRepoList))
      ensures d == Scan ==> modules == moduleRepoList && modulesListTotal == old(modulesListTotal) + modules && failureListTotal == old(failureListTotal) + failureList
      ensures d == Scan ==> var fixed := FixTrailingSlashForPath(path);
        var result := UpdateLoop(old(Contents(moduleRepoList)) + DirRecords(fixed, env.readDir(fixed), env), GitResolver(env.clone, env.prefix));
        Contents(modules) == result.modules && failureList == result.failures
    {
      modules, failureList := modules0, failures0;
      d := Pass;
      DepthRuleChoice(rootDir, path, name, isDir, ignore, depth, asWritten);
      if isDir && name !in ignore {
        if (asWritten || 0 <= depth) && Count(path, PathSeparator) > Count(rootDir, PathSeparator) + depth {
          return Prune, modules, failureList;
        }
        modules, failureList := ScanDirectory(path, env);
        d := Scan;
      }
    }

    /** The scanning branch of the callback: check the directory and add its lists to the totals. */
    method ScanDirectory(path: string, env: Env) returns (modules: seq<ModuleMap>, failureList: seq<Record>)
      requires Valid()
      modifies this, Index.Keys
      ensures Valid()
      ensures old(Index.Keys) <= Index.Keys && fresh(Index.Keys - old(Index.Keys))
      ensures modules == moduleRepoList && modulesListTotal == old(modulesListTotal) + modules && failureListTotal == old(failureListTotal) + failureList
      ensures var fixed := FixTrailingSlashForPath(path);
        var result := UpdateLoop(old(Contents(moduleRepoList)) + DirRecords(fixed, env.readDir(fixed), env), GitResolver(env.clone, env.prefix));
        Contents(modules) == result.modules && failureList == result.failures
    {
      modules, failureList := CheckForModuleSourceUpdates(path, env);
      modulesListTotal := modulesListTotal + modules;
      failureListTotal := failureListTotal + failureList;
    }
  }
}
