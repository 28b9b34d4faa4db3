/**
 * cmd/readGitFiles.go: deciding which tags of a module's repository are
 * newer than the version it is pinned to.
 *
 * The clone itself (go-git, in-memory storage, HTTP basic auth from the
 * configuration) is an oracle `clone` from a URL to a CloneOutcome: the
 * repository's tag reference names in enumeration order, or the error text.
 * The value of `errorHandlers.CloningErrorPrefix` is a parameter `prefix`.
 */
module ReadGitFiles {
  import opened Wrappers
  import opened GoStrings
  import opened GoVersion

  /** The prefix every tag reference name carries; `getTags` deletes it. */
  const TagRefPrefix := "refs/tags/"

  /** The delimiter `getTags` joins the newer tags with. */
  const TagDelimiter := '|'

  /** What `git.Clone` gives for one URL. */
  datatype CloneOutcome = Cloned(tagRefs: seq<string>) | CloneFailed(cause: string)

  /**
   * `cloneRepo(url)`: the repository's tag references, or the clone error
   * with its text prefixed by `prefix`.
   */
  function CloneRepo(url: string, clone: string -> CloneOutcome, prefix: string): (r: Result<seq<string>, string>)
    ensures r.Failure? <==> clone(url).CloneFailed?
    ensures r.Failure? ==> HasPrefix(r.error, prefix) && r.error[|prefix|..] == clone(url).cause
    ensures r.Success? ==> r.value == clone(url).tagRefs
  {
    match clone(url)
    case Cloned(refs) => Success(refs)
    case CloneFailed(cause) => Failure(prefix + cause)
  }

  /**
   * `getSemverGreaterThanCurrent(currentVersion, versionToCheck)`: the
   * candidate (second argument) is strictly above the baseline (first
   * argument); false as soon as either fails to parse.
   */
  function GetSemverGreaterThanCurrent(currentVersion: string, versionToCheck: string): (r: bool)
    ensures r <==> Parse(currentVersion).Some? && Parse(versionToCheck).Some?
                   && Compare(Parse(versionToCheck).value, Parse(currentVersion).value) == 1
  {
    match Parse(currentVersion)
    case None => false
    case Some(current) =>
      match Parse(versionToCheck)
      case None => false
      case Some(candidate) => Compare(candidate, current) > 0
  }

  /** The comparison is irreflexive on every string. */
  lemma SemverIrreflexive(v: string)
    ensures !GetSemverGreaterThanCurrent(v, v)
  {
    if Parse(v).Some? {
      CompareSelf(Parse(v).value);
    }
  }

  /** The comparison is asymmetric on every pair of strings. */
  lemma SemverAsymmetric(a: string, b: string)
    ensures GetSemverGreaterThanCurrent(a, b) ==> !GetSemverGreaterThanCurrent(b, a)
  {
    if Parse(a).Some? && Parse(b).Some? {
      CompareAntisym(Parse(a).value, Parse(b).value);
    }
  }

  /** The comparison is transitive: with the asymmetry above, a strict order on all strings. */
  lemma SemverTransitive(a: string, b: string, c: string)
    requires GetSemverGreaterThanCurrent(a, b) && GetSemverGreaterThanCurrent(b, c)
    ensures GetSemverGreaterThanCurrent(a, c)
  {
    var va, vb, vc := Parse(a).value, Parse(b).value, Parse(c).value;
    CompareAntisym(vb, va);
    CompareAntisym(vc, vb);
    CompareTrans(va, vb, vc);
    CompareAntisym(vc, va);
  }

  /** TestGetSemverGreaterThanCurrent: 1.0.1 is newer than 1.0.0. */
  lemma SemverPatchNewer()
    ensures GetSemverGreaterThanCurrent("1.0.0", "1.0.1")
  {
    ParseRelease100();
    ParseRelease101();
  }

  /** TestGetSemverGreaterThanCurrent: 0.0.1 is not newer than 1.0.0. */
  lemma SemverOlderRejected()
    ensures !GetSemverGreaterThanCurrent("1.0.0", "0.0.1")
  {
    ParseRelease100();
    ParseRelease001();
  }

  /** TestGetSemverGreaterThanCurrent: the release 1.0.0 is newer than 1.0.0-alpha. */
  lemma SemverReleaseNewer()
    ensures GetSemverGreaterThanCurrent("1.0.0-alpha", "1.0.0")
  {
    ParseRelease100();
    ParseAlpha();
    ReleaseAbovePrerelease([1, 0, 0], [Alpha("alpha")]);
  }

  /** TestGetSemverGreaterThanCurrent: 1.0.0-beta is newer than 1.0.0-alpha. */
  lemma SemverPrereleaseNewer()
    ensures GetSemverGreaterThanCurrent("1.0.0-alpha", "1.0.0-beta")
  {
    ParseAlpha();
    ParseBeta();
    BetaAboveAlpha();
  }

  /**
   * A four-segment pre-release and the three-segment release it extends
   * with a zero compare equal: the stored segment lists differ, so the
   * pre-release is never looked at, and neither is newer than the other.
   */
  lemma SemverExtraZeroSegment()
    ensures !GetSemverGreaterThanCurrent("1.0.0.0-alpha", "1.0.0")
    ensures !GetSemverGreaterThanCurrent("1.0.0", "1.0.0.0-alpha")
  {
    ParseRelease100();
    ParseAlpha1000();
    ExtraZeroSegmentEqual();
  }

  lemma ExtraZeroSegmentEqual()
    ensures Compare(Version([1, 0, 0, 0], [Alpha("alpha")]), Version([1, 0, 0], [])) == 0
    ensures Compare(Version([1, 0, 0], []), Version([1, 0, 0, 0], [Alpha("alpha")])) == 0
  {
    var long, short: seq<nat> := [1, 0, 0, 0], [1, 0, 0];
    assert CompareSegments(long, short) == 0 by {
      assert CompareSegments(long[3..], []) == 0;
    }
    CompareSegmentsAntisym(long, short);
    assert Pad3(long) != Pad3(short) by { assert |Pad3(long)| == 4; }
  }

  lemma BetaAboveAlpha()
    ensures Compare(Version([1, 0, 0], [Alpha("beta")]), Version([1, 0, 0], [Alpha("alpha")])) == 1
  {
    var segs: seq<nat> := [1, 0, 0];
    var beta, alpha := "beta", "alpha";
    CompareSegmentsAntisym(segs, segs);
    assert beta[0] == 'b' && alpha[0] == 'a';
    assert CompareStrings(beta, alpha) == 1;
    assert ComparePre([Alpha(beta)], [Alpha(alpha)]) == 1;
  }

  /** TestGetSemverGreaterThanCurrent: an unparseable baseline never reports an update, nor does an unparseable candidate. */
  lemma SemverUnparseable()
    ensures !GetSemverGreaterThanCurrent("chaos", "1.0.0-beta")
    ensures !GetSemverGreaterThanCurrent("1.0.0-beta", "chaos")
  {
    ParseChaos();
  }

  lemma ParseRelease100()
    ensures Parse("1.0.0") == Some(Version([1, 0, 0], []))
  {
    Core100();
    ParseFormat(Version([1, 0, 0], []));
  }

  lemma ParseRelease101()
    ensures Parse("1.0.1") == Some(Version([1, 0, 1], []))
  {
    var v := Version([1, 0, 1], []);
    assert SegmentWords([1, 0, 1]) == ["1", "0", "1"];
    assert Format(v) == "1.0.1";
    ParseFormat(v);
  }

  lemma ParseRelease001()
    ensures Parse("0.0.1") == Some(Version([0, 0, 1], []))
  {
    var v := Version([0, 0, 1], []);
    assert SegmentWords([0, 0, 1]) == ["0", "0", "1"];
    assert Format(v) == "0.0.1";
    ParseFormat(v);
  }

  lemma ParseAlpha()
    ensures Parse("1.0.0-alpha") == Some(Version([1, 0, 0], [Alpha("alpha")]))
  {
    var v := Version([1, 0, 0], [Alpha("alpha")]);
    WordNotNumeral("alpha");
    Core100();
    FormatPrerelease([1, 0, 0], "1.0.0", "alpha");
    assert Format(v) == "1.0.0-alpha";
    ParseFormat(v);
  }

  lemma ParseAlpha1000()
    ensures Parse("1.0.0.0-alpha") == Some(Version([1, 0, 0, 0], [Alpha("alpha")]))
  {
    var v := Version([1, 0, 0, 0], [Alpha("alpha")]);
    WordNotNumeral("alpha");
    Core1000();
    FormatPrerelease([1, 0, 0, 0], "1.0.0.0", "alpha");
    assert Format(v) == "1.0.0.0-alpha";
    ParseFormat(v);
  }

  lemma ParseBeta()
    ensures Parse("1.0.0-beta") == Some(Version([1, 0, 0], [Alpha("beta")]))
  {
    var v := Version([1, 0, 0], [Alpha("beta")]);
    WordNotNumeral("beta");
    Core100();
    FormatPrerelease([1, 0, 0], "1.0.0", "beta");
    assert Format(v) == "1.0.0-beta";
    ParseFormat(v);
  }

  /** The segments of 1.0.0 are written "1.0.0". */
  lemma Core100()
    ensures Format(Version([1, 0, 0], [])) == "1.0.0"
  {
    assert SegmentWords([1, 0, 0]) == ["1", "0", "0"];
  }

  /** The segments of 1.0.0.0 are written "1.0.0.0". */
  lemma Core1000()
    ensures Format(Version([1, 0, 0, 0], [])) == "1.0.0.0"
  {
    assert SegmentWords([1, 0, 0, 0]) == ["1", "0", "0", "0"];
  }

  /** A release with one alphanumeric identifier is written as the release, "-" and the identifier. */
  lemma FormatPrerelease(segs: seq<nat>, core: string, word: string)
    requires Format(Version(segs, [])) == core
    ensures Format(Version(segs, [Alpha(word)])) == core + "-" + word
  {
    assert IdentWords([Alpha(word)]) == [word];
  }

  /** A word that starts with a letter is a valid identifier that is not numeric. */
  lemma WordNotNumeral(word: string)
    requires |word| > 0 && 'a' <= word[0] <= 'z'
    requires forall k :: 0 <= k < |word| ==> 'a' <= word[k] <= 'z'
    ensures IsIdentWord(word) && !IsNumeral(word)
  {
  }

  lemma ParseChaos()
    ensures Parse("chaos") == None
  {
    assert '-' !in "chaos" && '.' !in "chaos";
    SplitAtDashOf("chaos", None);
    assert "chaos" + "" == "chaos";
    SplitNoSep("chaos", '.');
    assert !IsNumeral("chaos") by { assert !IsDigit("chaos"[0]); }
    assert ParseSegments(["chaos"]) == None;
  }

  /** The tag name of a reference: every `refs/tags/` removed, as `strings.ReplaceAll` does. */
  function TagName(ref: string): string
  {
    RemoveAll(ref, TagRefPrefix)
  }

  /**
   * The tag names among `tagRefs`, in enumeration order, that satisfy
   * `keep`: the selection `getTags` makes, stated for any test.
   */
  function SelectTags(tagRefs: seq<string>, keep: string -> bool): (tags: seq<string>)
    ensures |tags| <= |tagRefs|
    decreases |tagRefs|
  {
    if tagRefs == [] then []
    else
      var rest := SelectTags(tagRefs[..|tagRefs| - 1], keep);
      var t := TagName(tagRefs[|tagRefs| - 1]);
      if keep(t) then rest + [t] else rest
  }

  /** The enumeration positions of the references SelectTags keeps. */
  function SelectPositions(tagRefs: seq<string>, keep: string -> bool): seq<nat>
    decreases |tagRefs|
  {
    if tagRefs == [] then []
    else
      var rest := SelectPositions(tagRefs[..|tagRefs| - 1], keep);
      if keep(TagName(tagRefs[|tagRefs| - 1])) then rest + [|tagRefs| - 1] else rest
  }

  /** Each selected tag is the name of the reference at its recorded position. */
  lemma {:induction false} SelectAtPositions(tagRefs: seq<string>, keep: string -> bool)
    ensures |SelectPositions(tagRefs, keep)| == |SelectTags(tagRefs, keep)|
    ensures forall k :: 0 <= k < |SelectTags(tagRefs, keep)| ==>
      SelectPositions(tagRefs, keep)[k] < |tagRefs|
      && SelectTags(tagRefs, keep)[k] == TagName(tagRefs[SelectPositions(tagRefs, keep)[k]])
    decreases |tagRefs|
  {
    if tagRefs != [] {
      var n := |tagRefs| - 1;
      SelectAtPositions(tagRefs[..n], keep);
      var rest, rpos := SelectTags(tagRefs[..n], keep), SelectPositions(tagRefs[..n], keep);
      forall k | 0 <= k < |rest| ensures tagRefs[..n][rpos[k]] == tagRefs[rpos[k]] { }
    }
  }

  /** The recorded positions increase strictly: the selection keeps enumeration order. */
  lemma {:induction false} SelectPositionsIncrease(tagRefs: seq<string>, keep: string -> bool)
    ensures forall k :: 0 <= k < |SelectPositions(tagRefs, keep)| ==>
      SelectPositions(tagRefs, keep)[k] < |tagRefs|
    ensures forall k, l :: 0 <= k < l < |SelectPositions(tagRefs, keep)| ==>
      SelectPositions(tagRefs, keep)[k] < SelectPositions(tagRefs, keep)[l]
    decreases |tagRefs|
  {
    if tagRefs != [] {
      SelectPositionsIncrease(tagRefs[..|tagRefs| - 1], keep);
    }
  }

  /** A position is recorded exactly when its tag name passes `keep`. */
  lemma {:induction false} SelectPositionsExact(tagRefs: seq<string>, keep: string -> bool)
    ensures forall i :: 0 <= i < |tagRefs| ==>
      (i in SelectPositions(tagRefs, keep) <==> keep(TagName(tagRefs[i])))
    decreases |tagRefs|
  {
    if tagRefs != [] {
      var n := |tagRefs| - 1;
      SelectPositionsExact(tagRefs[..n], keep);
      SelectPositionsIncrease(tagRefs[..n], keep);
      forall i | 0 <= i < n ensures tagRefs[..n][i] == tagRefs[i] { }
    }
  }

  /** Every selected tag passes `keep`. */
  lemma SelectSound(tagRefs: seq<string>, keep: string -> bool)
    ensures forall k :: 0 <= k < |SelectTags(tagRefs, keep)| ==> keep(SelectTags(tagRefs, keep)[k])
  {
    SelectAtPositions(tagRefs, keep);
    SelectPositionsExact(tagRefs, keep);
    var pos := SelectPositions(tagRefs, keep);
    forall k | 0 <= k < |SelectTags(tagRefs, keep)| ensures keep(SelectTags(tagRefs, keep)[k]) {
      assert pos[k] in pos;
    }
  }

  /** Nothing is selected exactly when no tag name passes `keep`. */
  lemma SelectEmpty(tagRefs: seq<string>, keep: string -> bool)
    ensures SelectTags(tagRefs, keep) == [] <==>
      forall i :: 0 <= i < |tagRefs| ==> !keep(TagName(tagRefs[i]))
  {
    SelectAtPositions(tagRefs, keep);
    SelectPositionsExact(tagRefs, keep);
    var pos := SelectPositions(tagRefs, keep);
    if pos != [] {
      assert pos[0] in pos;
    }
  }

  /** The test `getTags` applies to each tag name. */
  function NewerThan(current: string): string -> bool
  {
    t => GetSemverGreaterThanCurrent(current, t)
  }

  /** The tags `getTags` keeps, in enumeration order: the tag names strictly above `current`. */
  function NewerTags(tagRefs: seq<string>, current: string): seq<string>
  {
    SelectTags(tagRefs, NewerThan(current))
  }

  /**
   * NewerTags is exactly the order-preserving selection of the tag names
   * strictly above `current`: it lists, at strictly increasing enumeration
   * positions, the names of precisely those references.
   */
  lemma NewerTagsSelection(tagRefs: seq<string>, current: string)
    ensures var tags, pos := NewerTags(tagRefs, current), SelectPositions(tagRefs, NewerThan(current));
      && |pos| == |tags|
      && (forall k :: 0 <= k < |pos| ==> pos[k] < |tagRefs| && tags[k] == TagName(tagRefs[pos[k]]))
      && (forall k, l :: 0 <= k < l < |pos| ==> pos[k] < pos[l])
      && (forall i :: 0 <= i < |tagRefs| ==>
            (i in pos <==> GetSemverGreaterThanCurrent(current, TagName(tagRefs[i]))))
  {
    SelectAtPositions(tagRefs, NewerThan(current));
    SelectPositionsIncrease(tagRefs, NewerThan(current));
    SelectPositionsExact(tagRefs, NewerThan(current));
  }

  /** A string that parses as a version is non-empty and holds no '|', no '/' and so no `refs/tags/`. */
  lemma VersionStringShape(t: string)
    requires Parse(t).Some?
    ensures |t| > 0 && TagDelimiter !in t && '/' !in t && !Contains(t, TagRefPrefix)
  {
    ParsedAlphabet(t);
    VersionCharsShape(t);
  }

  /** A string of version characters holds no '|', no '/' and no `refs/tags/`. */
  lemma VersionCharsShape(t: string)
    requires forall k :: 0 <= k < |t| ==> IsVersionChar(t[k])
    ensures TagDelimiter !in t && '/' !in t && !Contains(t, TagRefPrefix)
  {
    forall i: nat ensures !OccursAt(t, TagRefPrefix, i) {
      if i + |TagRefPrefix| <= |t| {
        assert t[i..i + |TagRefPrefix|][4] == t[i + 4];
        assert TagRefPrefix[4] == '/';
      }
    }
  }

  /** A kept tag is a non-empty version string with no '|', no '/' and no `refs/tags/` left in it. */
  lemma NewerTagShape(tagRefs: seq<string>, current: string, k: nat)
    requires k < |NewerTags(tagRefs, current)|
    ensures var t := NewerTags(tagRefs, current)[k];
      && GetSemverGreaterThanCurrent(current, t)
      && |t| > 0 && TagDelimiter !in t && '/' !in t && !Contains(t, TagRefPrefix)
  {
    SelectSound(tagRefs, NewerThan(current));
    VersionStringShape(NewerTags(tagRefs, current)[k]);
  }

  /**
   * The string `getTags` returns: its `|`-separated pieces are the kept
   * tags, and it is empty exactly when none is kept.
   */
  lemma JoinedTags(tagRefs: seq<string>, current: string)
    ensures var tags := NewerTags(tagRefs, current);
      && (Join(tags, TagDelimiter) == "" <==> tags == [])
      && (tags != [] ==> Split(Join(tags, TagDelimiter), TagDelimiter) == tags)
  {
    var tags := NewerTags(tagRefs, current);
    forall k | 0 <= k < |tags| ensures TagDelimiter !in tags[k] && |tags[k]| > 0 {
      NewerTagShape(tagRefs, current, k);
    }
    if tags != [] {
      SplitJoin(tags, TagDelimiter);
    }
  }

  /** One more tag reference appends its name when it is newer than `current`. */
  lemma NewerTagsStep(tagRefs: seq<string>, current: string, i: nat)
    requires i < |tagRefs|
    ensures NewerTags(tagRefs[..i + 1], current) == NewerTags(tagRefs[..i], current) +
      (if GetSemverGreaterThanCurrent(current, TagName(tagRefs[i])) then [TagName(tagRefs[i])] else [])
  {
    assert tagRefs[..i + 1][..i] == tagRefs[..i];
  }

  /**
   * `getTags(r, currentVersionTag)`: walks the tag references, keeps the
   * names strictly above the pinned version and joins them with '|'.
   */
  method GetTags(tagRefs: seq<string>, currentVersionTag: string) returns (tags: string)
    ensures tags == Join(NewerTags(tagRefs, currentVersionTag), TagDelimiter)
    ensures tags == "" <==>
      forall i :: 0 <= i < |tagRefs| ==> !GetSemverGreaterThanCurrent(currentVersionTag, TagName(tagRefs[i]))
    ensures tags != "" ==> Split(tags, TagDelimiter) == NewerTags(tagRefs, currentVersionTag)
  {
    var tagsList: seq<string> := [];
    var i := 0;
    while i < |tagRefs|
      invariant 0 <= i <= |tagRefs|
      invariant tagsList == NewerTags(tagRefs[..i], currentVersionTag)
    {
      var versionToCheck := RemoveAll(tagRefs[i], TagRefPrefix);
      NewerTagsStep(tagRefs, currentVersionTag, i);
      if GetSemverGreaterThanCurrent(currentVersionTag, versionToCheck) {
        tagsList := tagsList + [versionToCheck];
      }
      i := i + 1;
    }
    assert tagRefs[..i] == tagRefs;
    if |tagsList| > 0 {
      tags := Join(tagsList, TagDelimiter);
    } else {
      tags := "";
    }
    JoinedTags(tagRefs, currentVersionTag);
    SelectEmpty(tagRefs, NewerThan(currentVersionTag));
  }

  /** An unparseable pinned version disables every update. */
  lemma UnparseablePinKeepsNothing(tagRefs: seq<string>, current: string)
    requires Parse(current).None?
    ensures NewerTags(tagRefs, current) == []
  {
    var tags := NewerTags(tagRefs, current);
    if tags != [] {
      NewerTagShape(tagRefs, current, 0);
    }
  }

  /** What `processGitRepo(url, currentVersionTag)` returns: the tag string and the error text, if any. */
  function ProcessGitRepoResult(url: string, currentVersionTag: string, clone: string -> CloneOutcome, prefix: string): (r: (string, Option<string>))
  {
    match CloneRepo(url, clone, prefix)
    case Success(refs) => (Join(NewerTags(refs, currentVersionTag), TagDelimiter), None)
    case Failure(e) => ("", Some(e))
  }

  /**
   * The two outcomes of `processGitRepo`: a failed clone gives "" and an
   * error starting with the cloning prefix; a successful one gives no error
   * and the joined newer tags, "" when there are none.
   */
  lemma ProcessGitRepoOutcomes(url: string, currentVersionTag: string, clone: string -> CloneOutcome, prefix: string)
    ensures var (tags, err) := ProcessGitRepoResult(url, currentVersionTag, clone, prefix);
      && (err.Some? <==> clone(url).CloneFailed?)
      && (err.Some? ==> tags == "" && HasPrefix(err.value, prefix) && err.value[|prefix|..] == clone(url).cause)
      && (err.None? ==>
            (tags == "" <==> NewerTags(clone(url).tagRefs, currentVersionTag) == [])
            && (tags != "" ==> Split(tags, TagDelimiter) == NewerTags(clone(url).tagRefs, currentVersionTag)))
  {
    if clone(url).Cloned? {
      JoinedTags(clone(url).tagRefs, currentVersionTag);
    }
  }

  /** `processGitRepo(url, currentVersionTag)`: clone, then list the newer tags. */
  method ProcessGitRepo(url: string, currentVersionTag: string, clone: string -> CloneOutcome, prefix: string)
    returns (tagsList: string, err: Option<string>)
    ensures (tagsList, err) == ProcessGitRepoResult(url, currentVersionTag, clone, prefix)
    ensures err.Some? ==> tagsList == "" && HasPrefix(err.value, prefix)
  {
    var repo := CloneRepo(url, clone, prefix);
    if repo.Success? {
      tagsList := GetTags(repo.value, currentVersionTag);
      err := None;
    } else {
      tagsList := "";
      err := Some(repo.error);
    }
  }
}
