/**
 * cmd/readFiles.go: turning the lines of a directory's files into module
 * records `{repo, current_version}`.
 *
 * `url.Parse` is an oracle `parseUrl` yielding a ParsedUrl whose query is
 * already split into `url.Values`; the order in which `maps.Keys` lists the
 * four module-source patterns is a parameter, one order per line.
 */
module ReadFiles {
  import opened Wrappers
  import opened GoStrings
  import opened Patterns

  /**
   * `fixTrailingSlashForPath(path)`: the path without its trailing slashes;
   * a path that does not end in '/' comes back unchanged.
   */
  function FixTrailingSlashForPath(path: string): (r: string)
    ensures !HasSuffix(r, "/")
    ensures HasPrefix(path, r)
    ensures forall k :: |r| <= k < |path| ==> path[k] == '/'
    ensures !HasSuffix(path, "/") ==> r == path
  {
    if HasSuffix(path, "/") then TrimRight(path, '/') else path
  }

  /** Fixing a fixed path changes nothing. */
  lemma FixTrailingSlashIdempotent(path: string)
    ensures FixTrailingSlashForPath(FixTrailingSlashForPath(path)) == FixTrailingSlashForPath(path)
  {
  }

  /** TestReadDirectoryWithSlash and TestReadDirectoryWithoutSlash; a lone "/" becomes "". */
  lemma FixTrailingSlashExamples()
    ensures FixTrailingSlashForPath("./test_dir/") == "./test_dir"
    ensures FixTrailingSlashForPath("./test_dir") == "./test_dir"
    ensures FixTrailingSlashForPath("///") == ""
  {
    assert HasSuffix("./test_dir/", "/");
    assert "./test_dir/"[..|"./test_dir/"| - 1] == "./test_dir";
    assert !HasSuffix("./test_dir", "/") by { assert "./test_dir"[|"./test_dir"| - 1] == 'r'; }
    assert HasSuffix("///", "/");
    assert "///"[..2] == "//" && "//"[..1] == "/" && "/"[..0] == "";
  }

  /**
   * `checkRegexMatchNotEmpty(match)`: the first group of the first match
   * when there is a match and that group is non-empty; otherwise "".
   * Go panics when the first match has no group, hence the precondition.
   */
  function CheckRegexMatchNotEmpty(matches: seq<seq<string>>): (r: string)
    requires |matches| > 0 ==> |matches[0]| >= 2
    ensures r != "" <==> |matches| > 0 && |matches[0][1]| > 0
    ensures r != "" ==> r == matches[0][1]
  {
    if |matches| > 0 && |matches[0][1]| > 0 then matches[0][1] else ""
  }

  /** What `url.Parse` gives: scheme, host, path and the parsed `url.Values` of the query. */
  datatype ParsedUrl = ParsedUrl(scheme: string, host: string, path: string, query: map<string, seq<string>>)

  /** `url.Values.Get(key)`: the first value, "" when the key is absent or has none. */
  function QueryGet(query: map<string, seq<string>>, key: string): string
  {
    if key in query && |query[key]| > 0 then query[key][0] else ""
  }

  /**
   * `extractRefAndPath(sourceUrl)` on the parsed URL: `scheme://host path`
   * (no `scheme://` when the scheme is empty) and the `ref` query value.
   */
  function ExtractRefAndPath(u: ParsedUrl): (r: (string, string))
    ensures u.scheme != "" ==> r.0 == u.scheme + "://" + u.host + u.path
    ensures u.scheme == "" ==> r.0 == u.host + u.path
    ensures r.1 == QueryGet(u.query, "ref")
  {
    var rawUrl := (if u.scheme != "" then u.scheme + "://" else "") + u.host + u.path;
    if "ref" in u.query then (rawUrl, QueryGet(u.query, "ref")) else (rawUrl, "")
  }

  /**
   * Only the scheme, the host, the path and the `ref` parameter matter:
   * every other query parameter is dropped.
   */
  lemma ExtractRefAndPathIgnoresQuery(u: ParsedUrl, u': ParsedUrl)
    requires u.scheme == u'.scheme && u.host == u'.host && u.path == u'.path
    requires QueryGet(u.query, "ref") == QueryGet(u'.query, "ref")
    ensures ExtractRefAndPath(u) == ExtractRefAndPath(u')
  {
  }

  /** The keys of `moduleSourceRegexMap`. */
  datatype Key = GenericGitKey | GitHubKey | HttpsKey | BitbucketKey

  function KeyName(k: Key): string {
    match k
    case GenericGitKey => "generic_git"
    case GitHubKey => "github"
    case HttpsKey => "https"
    case BitbucketKey => "bitbucket"
  }

  /** `moduleSourceRegexMap[KeyName(k)]`. */
  function PatternOf(k: Key): Pattern {
    match k
    case GenericGitKey => GenericGit
    case GitHubKey => GitHub
    case HttpsKey => Https
    case BitbucketKey => Bitbucket
  }

  /** An order `maps.Keys` can produce: each of the four keys exactly once. */
  predicate IsKeyOrder(keys: seq<Key>) {
    |keys| == 4 && GenericGitKey in keys && GitHubKey in keys && HttpsKey in keys && BitbucketKey in keys
  }

  /** What one iteration of `extractModuleSource` computes for key `k`. */
  function Capture(line: string, k: Key): string
  {
    CheckRegexMatchNotEmpty(FindAllStringSubmatch(line, PatternOf(k), 1))
  }

  /**
   * A key's capture is non-empty exactly when its expression matches, and
   * then it is the capture group of the leftmost-first match.
   */
  lemma CaptureMeaning(line: string, k: Key)
    ensures Capture(line, k) != "" <==> Matches(line, PatternOf(k))
    ensures Capture(line, k) != "" ==>
      var m := Find(line, PatternOf(k), 0).value;
      IsMatch(line, PatternOf(k), m.start, m.capStart, m.quote) && Capture(line, k) == line[m.capStart..m.quote]
  {
    FindAllShape(line, PatternOf(k), 1);
  }

  /** The first non-empty `capture(k)` for `k` in `keys`, "" when there is none. */
  function FirstNonEmpty(keys: seq<Key>, capture: Key -> string): string
  {
    if keys == [] then ""
    else if capture(keys[0]) != "" then capture(keys[0])
    else FirstNonEmpty(keys[1..], capture)
  }

  /** FirstNonEmpty is "" exactly when every capture in `keys` is. */
  lemma {:induction false} FirstNonEmptyEmpty(keys: seq<Key>, capture: Key -> string)
    ensures FirstNonEmpty(keys, capture) == "" <==> forall i :: 0 <= i < |keys| ==> capture(keys[i]) == ""
  {
    if keys != [] {
      FirstNonEmptyEmpty(keys[1..], capture);
      assert forall i :: 1 <= i < |keys| ==> keys[i] == keys[1..][i - 1];
    }
  }

  /** A non-empty FirstNonEmpty is the capture of the first key whose capture is non-empty. */
  lemma {:induction false} FirstNonEmptyIsFirst(keys: seq<Key>, capture: Key -> string) returns (i: nat)
    requires FirstNonEmpty(keys, capture) != ""
    ensures i < |keys| && FirstNonEmpty(keys, capture) == capture(keys[i])
    ensures forall i' :: 0 <= i' < i ==> capture(keys[i']) == ""
  {
    if capture(keys[0]) == "" {
      var i1 := FirstNonEmptyIsFirst(keys[1..], capture);
      i := i1 + 1;
      assert forall i' :: 1 <= i' < i ==> keys[i'] == keys[1..][i' - 1];
    } else {
      i := 0;
    }
  }

  /** When only `k` has a non-empty capture, it is the result in every order that lists `k`. */
  lemma {:induction false} FirstNonEmptyUnique(keys: seq<Key>, capture: Key -> string, k: Key)
    requires k in keys
    requires forall k' :: k' != k ==> capture(k') == ""
    ensures FirstNonEmpty(keys, capture) == capture(k)
  {
    if keys[0] != k {
      assert capture(keys[0]) == "";
      assert k in keys[1..];
      FirstNonEmptyUnique(keys[1..], capture, k);
    } else if capture(k) == "" {
      FirstNonEmptyEmpty(keys[1..], capture);
    }
  }

  /** Capture as a function of the key, for one line. */
  function CaptureOf(line: string): Key -> string
  {
    k => Capture(line, k)
  }

  /** The result of `extractModuleSource`: the capture of the first key in `keys` whose capture is non-empty. */
  function FirstCapture(line: string, keys: seq<Key>): string
  {
    FirstNonEmpty(keys, CaptureOf(line))
  }

  /** FirstCapture is "" exactly when no expression in `keys` matches. */
  lemma FirstCaptureEmpty(line: string, keys: seq<Key>)
    ensures FirstCapture(line, keys) == "" <==> forall i :: 0 <= i < |keys| ==> !Matches(line, PatternOf(keys[i]))
  {
    FirstNonEmptyEmpty(keys, CaptureOf(line));
    forall i | 0 <= i < |keys| ensures CaptureOf(line)(keys[i]) == "" <==> !Matches(line, PatternOf(keys[i])) {
      CaptureMeaning(line, keys[i]);
    }
  }

  /**
   * A non-empty FirstCapture is the capture of a matching key, and no key
   * before it in the order matches.
   */
  lemma FirstCaptureIsFirst(line: string, keys: seq<Key>) returns (i: nat)
    requires FirstCapture(line, keys) != ""
    ensures i < |keys| && Matches(line, PatternOf(keys[i]))
    ensures FirstCapture(line, keys) == Capture(line, keys[i])
    ensures forall i' :: 0 <= i' < i ==> !Matches(line, PatternOf(keys[i']))
  {
    i := FirstNonEmptyIsFirst(keys, CaptureOf(line));
    CaptureMeaning(line, keys[i]);
    forall i' | 0 <= i' < i ensures !Matches(line, PatternOf(keys[i'])) {
      CaptureMeaning(line, keys[i']);
    }
  }

  /** When `k` is the only key whose expression matches, its capture is the result in every key order. */
  lemma UniqueMatchOrderFree(line: string, keys: seq<Key>, k: Key)
    requires IsKeyOrder(keys)
    requires forall k' :: k' != k ==> !Matches(line, PatternOf(k'))
    ensures FirstCapture(line, keys) == Capture(line, k)
  {
    forall k' | k' != k ensures CaptureOf(line)(k') == "" {
      CaptureMeaning(line, k');
    }
    assert k in keys by { assert k.GenericGitKey? || k.GitHubKey? || k.HttpsKey? || k.BitbucketKey?; }
    FirstNonEmptyUnique(keys, CaptureOf(line), k);
  }

  /** The repo the bitbucket expression captures from AmbiguousLine. */
  const BitbucketRepo := "bitbucket.org/x"
  /** The repo the https expression captures from AmbiguousLine. */
  const HttpsRepo := "https://" + BitbucketRepo
  /** A line that two expressions match, so that the key order decides the result. */
  const AmbiguousLine := "source=\"" + HttpsRepo + "\""

  /** The middle piece of a three-piece concatenation. */
  lemma Middle(a: string, b: string, c: string)
    ensures (a + b + c)[..|a|] == a && (a + b + c)[|a|..|a| + |b|] == b
  {
  }

  lemma AmbiguousLineParts()
    ensures |AmbiguousLine| == 32 && AmbiguousLine[31] == '"'
    ensures AmbiguousLine[0..8] == "source=\""
    ensures AmbiguousLine[8..31] == HttpsRepo && AmbiguousLine[8..16] == "https://"
    ensures AmbiguousLine[16..31] == BitbucketRepo
    ensures AmbiguousLine[16..29] == "bitbucket.org" && AmbiguousLine[17] == 'i'
  {
    Middle("source=\"", HttpsRepo, "\"");
    Middle("https://", BitbucketRepo, "");
    assert HttpsRepo + "" == HttpsRepo;
    assert AmbiguousLine[16..31] == AmbiguousLine[8..31][8..23];
    assert AmbiguousLine[8..16] == AmbiguousLine[8..31][0..8];
    assert BitbucketRepo == "bitbucket.org" + "/x";
    assert AmbiguousLine[16..29] == BitbucketRepo[0..13];
  }

  /** The https expression captures `https://bitbucket.org/x` from AmbiguousLine. */
  lemma AmbiguousHttps()
    ensures Capture(AmbiguousLine, HttpsKey) == HttpsRepo
  {
    var line := AmbiguousLine;
    AmbiguousLineParts();
    HeadAtLiteral(line, "https://", 8);
    assert IsMatch(line, Https, 0, 8, 31);
    CaptureMeaning(line, HttpsKey);
    FindSpec(line, Https, 0);
  }

  lemma AmbiguousBitbucketHead()
    ensures HeadAt(AmbiguousLine, Compile("bitbucket.org"), 16)
  {
    AmbiguousLineParts();
    HeadAtLiteral(AmbiguousLine, "bitbucket.org", 16);
  }

  lemma AmbiguousBitbucketNotAt17()
    ensures !HeadAt(AmbiguousLine, Compile("bitbucket.org"), 17)
  {
    AmbiguousLineParts();
    assert "bitbucket.org"[0] == 'b';
  }

  /** At the start of AmbiguousLine, the bitbucket expression captures from index 16 and from no later index. */
  lemma AmbiguousBitbucketOnlyAt16()
    ensures IsMatch(AmbiguousLine, Bitbucket, 0, 16, 31)
    ensures forall j': nat :: 16 < j' ==> !IsMatch(AmbiguousLine, Bitbucket, 0, j', 31)
  {
    AmbiguousLineParts();
    AmbiguousBitbucketHead();
    AmbiguousBitbucketNotAt17();
    forall j': nat | 16 < j' ensures !IsMatch(AmbiguousLine, Bitbucket, 0, j', 31) {
      if j' != 17 { assert |Bitbucket.head| == 13; }
    }
  }

  /** The leftmost-first bitbucket match on AmbiguousLine: its `.*` stops before `bitbucket.org`. */
  lemma AmbiguousBitbucketSpan()
    ensures Find(AmbiguousLine, Bitbucket, 0) == Some(Span(0, 16, 31))
  {
    AmbiguousLineParts();
    AmbiguousBitbucketOnlyAt16();
    FindAtStart(AmbiguousLine, Bitbucket, 16, 31);
  }

  /** The bitbucket expression captures `bitbucket.org/x` from AmbiguousLine. */
  lemma AmbiguousBitbucket()
    ensures Capture(AmbiguousLine, BitbucketKey) == BitbucketRepo
  {
    AmbiguousBitbucketSpan();
    AmbiguousLineParts();
    CaptureMeaning(AmbiguousLine, BitbucketKey);
    assert IsMatch(AmbiguousLine, Bitbucket, 0, 16, 31);
  }

  /**
   * The key order matters: for `source="https://bitbucket.org/x"` the
   * https expression captures `https://bitbucket.org/x` and the bitbucket
   * expression `bitbucket.org/x`, so two orders give two results.
   */
  lemma KeyOrderMatters()
    ensures FirstCapture(AmbiguousLine, [HttpsKey, GitHubKey, GenericGitKey, BitbucketKey]) == HttpsRepo
    ensures FirstCapture(AmbiguousLine, [BitbucketKey, GitHubKey, GenericGitKey, HttpsKey]) == BitbucketRepo
    ensures HttpsRepo != BitbucketRepo
  {
    AmbiguousHttps();
    AmbiguousBitbucket();
  }

  /**
   * `extractModuleSource(line)` with `keys` the order `maps.Keys` gives:
   * try each expression in turn and stop at the first non-empty capture.
   */
  method ExtractModuleSource(line: string, keys: seq<Key>) returns (matchedString: string)
    ensures matchedString == FirstCapture(line, keys)
    ensures matchedString == "" <==> forall i :: 0 <= i < |keys| ==> !Matches(line, PatternOf(keys[i]))
  {
    matchedString := "";
    var i := 0;
    while i < |keys|
      invariant 0 <= i <= |keys|
      invariant matchedString == ""
      invariant FirstCapture(line, keys) == FirstCapture(line, keys[i..])
    {
      var found := FindAllStringSubmatch(line, PatternOf(keys[i]), 1);
      FindAllShape(line, PatternOf(keys[i]), 1);
      matchedString := CheckRegexMatchNotEmpty(found);
      if matchedString != "" {
        break;
      }
      assert keys[i..][1..] == keys[i + 1..];
      i := i + 1;
    }
    FirstCaptureEmpty(line, keys);
  }

  /**
   * The pair `preProcessingSourceString(line)` returns: nothing unless the
   * space-free line has a `source="…"` match; then the URL and ref of the
   * first module expression that captures, or nothing when none does.
   */
  function SourceRef(line: string, keys: seq<Key>, parseUrl: string -> ParsedUrl): (r: (string, string))
  {
    var stripped := RemoveAll(line, " ");
    if CheckRegexMatchNotEmpty(FindAllStringSubmatch(stripped, SourceLine, -1)) == "" then ("", "")
    else
      var repoLink := FirstCapture(stripped, keys);
      if repoLink != "" then ExtractRefAndPath(parseUrl(repoLink)) else ("", "")
  }

  /** `preProcessingSourceString(line)`. */
  method PreProcessingSourceString(line: string, keys: seq<Key>, parseUrl: string -> ParsedUrl)
    returns (sourceUrl: string, refTag: string)
    ensures (sourceUrl, refTag) == SourceRef(line, keys, parseUrl)
  {
    var stripped := RemoveAll(line, " ");
    var sourceLineCheck := FindAllStringSubmatch(stripped, SourceLine, -1);
    if CheckRegexMatchNotEmpty(sourceLineCheck) == "" {
      return "", "";
    }
    var repoLink := ExtractModuleSource(stripped, keys);
    sourceUrl, refTag := "", "";
    if repoLink != "" {
      sourceUrl, refTag := ExtractRefAndPath(parseUrl(repoLink)).0, ExtractRefAndPath(parseUrl(repoLink)).1;
    }
  }

  /** Spaces never matter: the line and the line without spaces give the same pair. */
  lemma SourceRefIgnoresSpaces(line: string, keys: seq<Key>, parseUrl: string -> ParsedUrl)
    ensures SourceRef(line, keys, parseUrl) == SourceRef(RemoveAll(line, " "), keys, parseUrl)
  {
    RemoveCharIdempotent(line, ' ');
  }

  /** Without a `source="…"` match on the space-free line, the pair is empty. */
  lemma NoSourceLineNoRef(line: string, keys: seq<Key>, parseUrl: string -> ParsedUrl)
    requires !Matches(RemoveAll(line, " "), SourceLine)
    ensures SourceRef(line, keys, parseUrl) == ("", "")
  {
    FindAllShape(RemoveAll(line, " "), SourceLine, -1);
  }

  /** When no module expression captures, both the URL and the ref are "". */
  lemma NoModuleNoRef(line: string, keys: seq<Key>, parseUrl: string -> ParsedUrl)
    requires forall i :: 0 <= i < |keys| ==> !Matches(RemoveAll(line, " "), PatternOf(keys[i]))
    ensures SourceRef(line, keys, parseUrl) == ("", "")
  {
    FirstCaptureEmpty(RemoveAll(line, " "), keys);
  }

  /** Every match of a module expression is a match of `source="(.+)"`, from the same start to the same quote. */
  lemma ModuleMatchIsSourceLine(line: string, k: Key, p: nat, j: nat, q: nat)
    requires IsMatch(line, PatternOf(k), p, j, q)
    ensures IsMatch(line, SourceLine, p, p + 8, q)
  {
    if k == GenericGitKey {
      OccursAtPrefix(line, SourceOpen, "git::", p);
    }
  }

  /**
   * The `source="(.+)"` gate only saves work: whenever some module
   * expression captures, the gate passes, so the pair is the parsed URL
   * of the first capture.
   */
  lemma SourceGateRedundant(line: string, keys: seq<Key>, parseUrl: string -> ParsedUrl)
    requires FirstCapture(RemoveAll(line, " "), keys) != ""
    ensures SourceRef(line, keys, parseUrl) == ExtractRefAndPath(parseUrl(FirstCapture(RemoveAll(line, " "), keys)))
  {
    var stripped := RemoveAll(line, " ");
    var i := FirstCaptureIsFirst(stripped, keys);
    var p: nat, j: nat, q: nat :| IsMatch(stripped, PatternOf(keys[i]), p, j, q);
    ModuleMatchIsSourceLine(stripped, keys[i], p, j, q);
    FindAllShape(stripped, SourceLine, -1);
  }

  /** A module record: Go's `map[string]string`. */
  type Record = map<string, string>

  const RepoKey := "repo"
  const CurrentVersionKey := "current_version"

  /** The record `processRepoLinksAndTags` appends for one line. */
  function ModuleRecord(repo: string, tag: string): (m: Record)
    ensures m.Keys == {RepoKey, CurrentVersionKey}
    ensures m[RepoKey] == repo && m[CurrentVersionKey] == tag
  {
    map[RepoKey := repo, CurrentVersionKey := tag]
  }

  /** The `(repo, tag)` pair of line `l`, given the key order of each line. */
  function LineRef(keyOrder: nat -> seq<Key>, parseUrl: string -> ParsedUrl): (nat, string) -> (string, string)
  {
    (l: nat, line: string) => SourceRef(line, keyOrder(l), parseUrl)
  }

  /**
   * The records the line loop appends, in line order: one per line whose
   * repo is non-empty, where `ref(l, line)` is the pair of line `l`.
   */
  function CollectRecords(lines: seq<string>, ref: (nat, string) -> (string, string)): seq<Record>
    decreases |lines|
  {
    if lines == [] then []
    else
      var n := |lines| - 1;
      var (repo, tag) := ref(n, lines[n]);
      CollectRecords(lines[..n], ref) + (if repo != "" then [ModuleRecord(repo, tag)] else [])
  }

  /** One more line appends that line's record, if it has a repo. */
  lemma CollectRecordsStep(lines: seq<string>, ref: (nat, string) -> (string, string), l: nat)
    requires l < |lines|
    ensures CollectRecords(lines[..l + 1], ref) == CollectRecords(lines[..l], ref) +
      (if ref(l, lines[l]).0 != "" then [ModuleRecord(ref(l, lines[l]).0, ref(l, lines[l]).1)] else [])
  {
    var pre := lines[..l + 1];
    assert pre[..l] == lines[..l] && pre[l] == lines[l];
  }

  /** The records one file contributes; `keyOrder(l)` is the order `maps.Keys` gives on line `l`. */
  function FileRecords(lines: seq<string>, keyOrder: nat -> seq<Key>, parseUrl: string -> ParsedUrl): seq<Record>
  {
    CollectRecords(lines, LineRef(keyOrder, parseUrl))
  }

  /**
   * At most one record per line, each a `{repo, current_version}` pair
   * with a non-empty repo; no record at all when no line has a repo.
   */
  lemma {:induction false} CollectRecordsShape(lines: seq<string>, ref: (nat, string) -> (string, string))
    ensures |CollectRecords(lines, ref)| <= |lines|
    ensures forall r :: r in CollectRecords(lines, ref) ==> r.Keys == {RepoKey, CurrentVersionKey} && r[RepoKey] != ""
    ensures (forall l :: 0 <= l < |lines| ==> ref(l, lines[l]).0 == "") ==> CollectRecords(lines, ref) == []
    decreases |lines|
  {
    if lines != [] {
      var n := |lines| - 1;
      CollectRecordsShape(lines[..n], ref);
      assert forall l :: 0 <= l < n ==> lines[..n][l] == lines[l];
    }
  }

  /** The records of the first `k` lines are a prefix of the file's records: records keep line order. */
  lemma {:induction false} CollectRecordsPrefix(lines: seq<string>, ref: (nat, string) -> (string, string), k: nat)
    requires k <= |lines|
    ensures var p := CollectRecords(lines[..k], ref);
      |p| <= |CollectRecords(lines, ref)| && CollectRecords(lines, ref)[..|p|] == p
    decreases |lines|
  {
    if k == |lines| {
      assert lines[..k] == lines;
    } else {
      var n := |lines| - 1;
      CollectRecordsPrefix(lines[..n], ref, k);
      assert lines[..n][..k] == lines[..k];
      var p := CollectRecords(lines[..n], ref);
      assert CollectRecords(lines, ref)[..|p|] == p;
    }
  }

  /** Every record is the pair of some line with a non-empty repo. */
  lemma {:induction false} CollectRecordsSound(lines: seq<string>, ref: (nat, string) -> (string, string), k: nat) returns (l: nat)
    requires k < |CollectRecords(lines, ref)|
    ensures l < |lines| && ref(l, lines[l]).0 != ""
    ensures CollectRecords(lines, ref)[k] == ModuleRecord(ref(l, lines[l]).0, ref(l, lines[l]).1)
    decreases |lines|
  {
    var n := |lines| - 1;
    var p := CollectRecords(lines[..n], ref);
    if k < |p| {
      l := CollectRecordsSound(lines[..n], ref, k);
      assert lines[..n][l] == lines[l];
    } else {
      l := n;
    }
  }

  /** Every line with a non-empty repo has its record. */
  lemma {:induction false} CollectRecordsComplete(lines: seq<string>, ref: (nat, string) -> (string, string), l: nat) returns (k: nat)
    requires l < |lines| && ref(l, lines[l]).0 != ""
    ensures k < |CollectRecords(lines, ref)|
    ensures CollectRecords(lines, ref)[k] == ModuleRecord(ref(l, lines[l]).0, ref(l, lines[l]).1)
  {
    CollectRecordsPrefix(lines, ref, l + 1);
    var pre := lines[..l + 1];
    assert pre[..l] == lines[..l] && pre[l] == lines[l];
    var p := CollectRecords(pre, ref);
    assert p == CollectRecords(lines[..l], ref) + [ModuleRecord(ref(l, lines[l]).0, ref(l, lines[l]).1)];
    k := |p| - 1;
    assert CollectRecords(lines, ref)[k] == p[k];
  }
}
