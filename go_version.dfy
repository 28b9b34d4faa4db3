/**
 * A simplified model of the version strings accepted by
 * `hashicorp/go-version`'s `NewVersion` and of `Version.Compare`:
 *
 *   version    ::= [ "v" ] numeral { "." numeral } [ "-" identifier { "." identifier } ]
 *   numeral    ::= digit { digit }
 *   identifier ::= idchar { idchar }        idchar ::= digit | letter | "-"
 *
 * Segments compare numerically, a missing segment counting as 0, so
 * "1.0" and "1.0.0" are the same version.  Pre-release parts count only
 * when the segment lists, padded to three, are identical: then a release
 * is above any of its pre-releases, and pre-releases compare identifier
 * by identifier: numeric identifiers by value and below alphanumeric
 * ones, alphanumeric ones lexically, and a pre-release that is a proper
 * prefix of another is the smaller one.
 */
module GoVersion {
  import opened Wrappers
  import opened GoStrings

  /** One dot-separated identifier of a pre-release. */
  datatype Ident = Num(n: nat) | Alpha(s: string)

  /** A parsed version; `pre == []` is a release. */
  datatype Version = Version(segments: seq<nat>, pre: seq<Ident>)

  predicate IsDigit(c: char) {
    '0' <= c <= '9'
  }

  predicate IsIdentChar(c: char) {
    IsDigit(c) || 'a' <= c <= 'z' || 'A' <= c <= 'Z' || c == '-'
  }

  predicate AllDigits(s: string) {
    forall i :: 0 <= i < |s| ==> IsDigit(s[i])
  }

  predicate IsNumeral(s: string) {
    |s| > 0 && AllDigits(s)
  }

  predicate IsIdentWord(s: string) {
    |s| > 0 && forall i :: 0 <= i < |s| ==> IsIdentChar(s[i])
  }

  /** The characters a parseable version string is made of. */
  predicate IsVersionChar(c: char) {
    IsIdentChar(c) || c == '.'
  }

  /** The decimal value of a string of digits. */
  function NumeralValue(s: string): nat
    requires AllDigits(s)
  {
    if s == [] then 0
    else NumeralValue(s[..|s| - 1]) * 10 + (s[|s| - 1] as int - '0' as int)
  }

  /** The values of the numeric segments, or None if one is not a numeral. */
  function ParseSegments(words: seq<string>): (r: Option<seq<nat>>)
    ensures r.Some? ==> |r.value| == |words|
    ensures r.Some? <==> forall i :: 0 <= i < |words| ==> IsNumeral(words[i])
  {
    if words == [] then Some([])
    else if !IsNumeral(words[0]) then None
    else match ParseSegments(words[1..])
      case None => None
      case Some(rest) => Some([NumeralValue(words[0])] + rest)
  }

  /** An all-digit identifier is numeric, any other valid one alphanumeric. */
  function ParseIdent(w: string): Option<Ident>
  {
    if IsNumeral(w) then Some(Num(NumeralValue(w)))
    else if IsIdentWord(w) then Some(Alpha(w))
    else None
  }

  /** An identifier that `Parse` can yield: alphanumeric ones are valid and not all digits. */
  predicate WellFormedIdent(x: Ident) {
    x.Alpha? ==> IsIdentWord(x.s) && !IsNumeral(x.s)
  }

  /** A version that `Parse` can yield. */
  predicate WellFormed(v: Version) {
    |v.segments| >= 1 && forall i :: 0 <= i < |v.pre| ==> WellFormedIdent(v.pre[i])
  }

  function ParseIdents(words: seq<string>): (r: Option<seq<Ident>>)
    ensures r.Some? ==> |r.value| == |words|
    ensures r.Some? ==> forall i :: 0 <= i < |r.value| ==> WellFormedIdent(r.value[i])
    ensures r.Some? <==> forall i :: 0 <= i < |words| ==> IsIdentWord(words[i])
  {
    if words == [] then Some([])
    else match ParseIdent(words[0])
      case None => None
      case Some(x) =>
        match ParseIdents(words[1..])
        case None => None
        case Some(rest) => Some([x] + rest)
  }

  /** The text before the first '-' and, if there is one, the text after it. */
  function SplitAtDash(s: string): (r: (string, Option<string>))
    ensures '-' !in r.0
    ensures s == r.0 + (if r.1.Some? then "-" + r.1.value else "")
  {
    if s == [] then (s, None)
    else if s[0] == '-' then ("", Some(s[1..]))
    else
      var (a, b) := SplitAtDash(s[1..]);
      ([s[0]] + a, b)
  }

  /** `version.NewVersion(s)`: None stands for the error return. */
  function Parse(s: string): (r: Option<Version>)
    ensures r.Some? ==> WellFormed(r.value)
  {
    var body := if |s| > 0 && s[0] == 'v' then s[1..] else s;
    var (core, pre) := SplitAtDash(body);
    match ParseSegments(Split(core, '.'))
    case None => None
    case Some(segs) =>
      if pre.None? then Some(Version(segs, []))
      else match ParseIdents(Split(pre.value, '.'))
        case None => None
        case Some(ids) => Some(Version(segs, ids))
  }

  /** One leading 'v' is ignored. */
  lemma ParseLeadingV(s: string)
    requires s == [] || s[0] != 'v'
    ensures Parse("v" + s) == Parse(s)
  {
    assert ("v" + s)[1..] == s;
  }

  /** Every character of a join of words over an alphabet is in the alphabet or the separator. */
  lemma JoinOverAlphabet(words: seq<string>, sep: char)
    requires forall i, k :: 0 <= i < |words| && 0 <= k < |words[i]| ==> IsIdentChar(words[i][k])
    ensures forall k :: 0 <= k < |Join(words, sep)| ==> IsIdentChar(Join(words, sep)[k]) || Join(words, sep)[k] == sep
  {
    var s := Join(words, sep);
    forall k | 0 <= k < |s|
      ensures IsIdentChar(s[k]) || s[k] == sep
    {
      JoinChars(words, sep, s[k]);
      if s[k] != sep {
        var i :| 0 <= i < |words| && s[k] in words[i];
        var j :| 0 <= j < |words[i]| && words[i][j] == s[k];
      }
    }
  }

  /** A string whose pieces are all identifier words is made of identifier characters and separators. */
  lemma SplitWordsAlphabet(x: string, sep: char)
    requires forall i :: 0 <= i < |Split(x, sep)| ==> IsIdentWord(Split(x, sep)[i])
    ensures forall k :: 0 <= k < |x| ==> IsIdentChar(x[k]) || x[k] == sep
  {
    JoinSplit(x, sep);
    JoinOverAlphabet(Split(x, sep), sep);
  }

  /** What a successful parse says about the two halves of the string. */
  lemma ParseParts(s: string)
    requires Parse(s).Some?
    ensures var body := if |s| > 0 && s[0] == 'v' then s[1..] else s;
      var (core, pre) := SplitAtDash(body);
      && (forall i :: 0 <= i < |Split(core, '.')| ==> IsNumeral(Split(core, '.')[i]))
      && (pre.Some? ==> ParseIdents(Split(pre.value, '.')).Some?)
  {
  }

  /** The core of a version is a non-empty string of digits and dots. */
  lemma CoreAlphabet(core: string)
    requires forall i :: 0 <= i < |Split(core, '.')| ==> IsNumeral(Split(core, '.')[i])
    ensures |core| > 0
    ensures forall k :: 0 <= k < |core| ==> IsVersionChar(core[k])
  {
    var words := Split(core, '.');
    forall i, k | 0 <= i < |words| && 0 <= k < |words[i]| ensures IsIdentChar(words[i][k]) {
      assert IsDigit(words[i][k]);
    }
    SplitWordsAlphabet(core, '.');
    assert |words[0]| > 0;
    SplitFirstLength(core, '.');
  }

  /**
   * A parseable string is non-empty and made of digits, letters, '-' and
   * '.' only; in particular it holds no '|' and no '/'.
   */
  lemma ParsedAlphabet(s: string)
    requires Parse(s).Some?
    ensures |s| > 0
    ensures forall k :: 0 <= k < |s| ==> IsVersionChar(s[k])
  {
    var body := if |s| > 0 && s[0] == 'v' then s[1..] else s;
    var (core, pre) := SplitAtDash(body);
    ParseParts(s);
    CoreAlphabet(core);
    BodyAlphabet(core, pre);
    assert body == core + (if pre.Some? then "-" + pre.value else "");
    forall k | 0 <= k < |s| ensures IsVersionChar(s[k]) {
      if |s| > 0 && s[0] == 'v' && k > 0 {
        assert s[k] == body[k - 1];
      } else if !(|s| > 0 && s[0] == 'v') {
        assert s[k] == body[k];
      }
    }
  }

  lemma BodyAlphabet(core: string, pre: Option<string>)
    requires forall k :: 0 <= k < |core| ==> IsVersionChar(core[k])
    requires pre.Some? ==> ParseIdents(Split(pre.value, '.')).Some?
    ensures var body := core + (if pre.Some? then "-" + pre.value else "");
      forall k :: 0 <= k < |body| ==> IsVersionChar(body[k])
  {
    if pre.Some? {
      SplitWordsAlphabet(pre.value, '.');
      var body := core + "-" + pre.value;
      forall k | 0 <= k < |body| ensures IsVersionChar(body[k]) {
        if k < |core| {
          assert body[k] == core[k];
        } else if k > |core| {
          assert body[k] == pre.value[k - |core| - 1];
        }
      }
    }
  }

  // ---------------------------------------------------------------------
  // Formatting: the inverse of Parse on well-formed versions.

  function DigitChar(d: nat): (c: char)
    requires d < 10
    ensures IsDigit(c)
  {
    ('0' as int + d) as char
  }

  /** The shortest decimal numeral of `n`. */
  function NatToNumeral(n: nat): (s: string)
    ensures IsNumeral(s)
    decreases n
  {
    if n < 10 then [DigitChar(n)] else NatToNumeral(n / 10) + [DigitChar(n % 10)]
  }

  lemma {:induction false} NumeralRoundTrip(n: nat)
    ensures NumeralValue(NatToNumeral(n)) == n
    decreases n
  {
    if n >= 10 {
      NumeralRoundTrip(n / 10);
      var s := NatToNumeral(n);
      assert s[..|s| - 1] == NatToNumeral(n / 10);
    }
  }

  function SegmentWords(segs: seq<nat>): (words: seq<string>)
    ensures |words| == |segs|
    ensures forall i :: 0 <= i < |words| ==> IsNumeral(words[i])
  {
    if segs == [] then [] else [NatToNumeral(segs[0])] + SegmentWords(segs[1..])
  }

  function IdentWord(x: Ident): string
  {
    match x
    case Num(n) => NatToNumeral(n)
    case Alpha(s) => s
  }

  function IdentWords(ids: seq<Ident>): (words: seq<string>)
    ensures |words| == |ids|
    ensures forall i :: 0 <= i < |words| ==> words[i] == IdentWord(ids[i])
  {
    if ids == [] then [] else [IdentWord(ids[0])] + IdentWords(ids[1..])
  }

  /** The canonical text of a version: no 'v', no leading zeros. */
  function Format(v: Version): string
  {
    Join(SegmentWords(v.segments), '.')
      + (if v.pre == [] then "" else "-" + Join(IdentWords(v.pre), '.'))
  }

  lemma {:induction false} ParseSegmentsOfWords(segs: seq<nat>)
    ensures ParseSegments(SegmentWords(segs)) == Some(segs)
  {
    if segs != [] {
      ParseSegmentsOfWords(segs[1..]);
      NumeralRoundTrip(segs[0]);
      assert SegmentWords(segs)[1..] == SegmentWords(segs[1..]);
      assert [segs[0]] + segs[1..] == segs;
    }
  }

  lemma {:induction false} ParseIdentsOfWords(ids: seq<Ident>)
    requires forall i :: 0 <= i < |ids| ==> WellFormedIdent(ids[i])
    ensures ParseIdents(IdentWords(ids)) == Some(ids)
  {
    if ids != [] {
      ParseIdentsOfWords(ids[1..]);
      assert WellFormedIdent(ids[0]);
      if ids[0].Num? {
        NumeralRoundTrip(ids[0].n);
      }
      assert ParseIdent(IdentWord(ids[0])) == Some(ids[0]);
      assert IdentWords(ids)[1..] == IdentWords(ids[1..]);
      assert [ids[0]] + ids[1..] == ids;
    }
  }

  lemma {:induction false} SplitAtDashOf(a: string, tail: Option<string>)
    requires '-' !in a
    ensures SplitAtDash(a + (if tail.Some? then "-" + tail.value else "")) == (a, tail)
  {
    var s := a + (if tail.Some? then "-" + tail.value else "");
    if a == [] {
      assert s == (if tail.Some? then "-" + tail.value else "");
      if tail.Some? {
        assert s[1..] == tail.value;
      }
    } else {
      SplitAtDashOf(a[1..], tail);
      assert s[0] == a[0];
      assert s[1..] == a[1..] + (if tail.Some? then "-" + tail.value else "");
      assert [a[0]] + a[1..] == a;
    }
  }

  /** Parsing the canonical text of a well-formed version gives it back. */
  lemma ParseFormat(v: Version)
    requires WellFormed(v)
    ensures Parse(Format(v)) == Some(v)
  {
    var segWords := SegmentWords(v.segments);
    var core := Join(segWords, '.');
    assert forall i :: 0 <= i < |segWords| ==> '.' !in segWords[i] && '-' !in segWords[i] by {
      forall i, k | 0 <= i < |segWords| && 0 <= k < |segWords[i]|
        ensures segWords[i][k] != '.' && segWords[i][k] != '-'
      {
        assert IsDigit(segWords[i][k]);
      }
    }
    SplitJoin(segWords, '.');
    ParseSegmentsOfWords(v.segments);
    assert '-' !in core by {
      if '-' in core {
        JoinChars(segWords, '.', '-');
      }
    }
    assert core[0] != 'v' by {
      assert core == segWords[0] || core == segWords[0] + ['.'] + Join(segWords[1..], '.');
      assert IsDigit(segWords[0][0]);
    }
    var tail: Option<string> := if v.pre == [] then None else Some(Join(IdentWords(v.pre), '.'));
    assert Format(v) == core + (if tail.Some? then "-" + tail.value else "");
    SplitAtDashOf(core, tail);
    if v.pre != [] {
      var idWords := IdentWords(v.pre);
      assert forall i :: 0 <= i < |idWords| ==> '.' !in idWords[i] by {
        forall i, k | 0 <= i < |idWords| && 0 <= k < |idWords[i]|
          ensures idWords[i][k] != '.'
        {
          assert WellFormedIdent(v.pre[i]);
          if v.pre[i].Num? {
            assert IsDigit(idWords[i][k]);
          } else {
            assert IsIdentChar(idWords[i][k]);
          }
        }
      }
      SplitJoin(idWords, '.');
      ParseIdentsOfWords(v.pre);
    }
  }

  // ---------------------------------------------------------------------
  // Ordering.  Each Compare* function returns -1, 0 or 1.

  function Head0(s: seq<nat>): nat {
    if |s| == 0 then 0 else s[0]
  }

  function Tail0(s: seq<nat>): seq<nat> {
    if |s| == 0 then [] else s[1..]
  }

  /** Segments compared position by position, a missing segment counting as 0. */
  function CompareSegments(a: seq<nat>, b: seq<nat>): (c: int)
    ensures -1 <= c <= 1
    decreases |a| + |b|
  {
    if |a| == 0 && |b| == 0 then 0
    else if Head0(a) < Head0(b) then -1
    else if Head0(a) > Head0(b) then 1
    else CompareSegments(Tail0(a), Tail0(b))
  }

  /** The recursive case of CompareSegments holds for empty arguments too. */
  lemma CompareSegmentsUnfold(a: seq<nat>, b: seq<nat>)
    ensures CompareSegments(a, b) ==
      if Head0(a) < Head0(b) then -1
      else if Head0(a) > Head0(b) then 1
      else CompareSegments(Tail0(a), Tail0(b))
  {
  }

  lemma {:induction false} CompareSegmentsAntisym(a: seq<nat>, b: seq<nat>)
    ensures CompareSegments(a, b) == -CompareSegments(b, a)
    decreases |a| + |b|
  {
    if !(|a| == 0 && |b| == 0) && Head0(a) == Head0(b) {
      CompareSegmentsAntisym(Tail0(a), Tail0(b));
    }
  }

  lemma {:induction false} CompareSegmentsTrans(a: seq<nat>, b: seq<nat>, c: seq<nat>)
    requires CompareSegments(a, b) <= 0 && CompareSegments(b, c) <= 0
    ensures CompareSegments(a, c) <= 0
    ensures CompareSegments(a, c) == 0 ==> CompareSegments(a, b) == 0 && CompareSegments(b, c) == 0
    decreases |a| + |b| + |c|
  {
    if |a| + |b| + |c| > 0 {
      CompareSegmentsUnfold(a, b);
      CompareSegmentsUnfold(b, c);
      CompareSegmentsUnfold(a, c);
      if Head0(a) == Head0(b) == Head0(c) {
        CompareSegmentsTrans(Tail0(a), Tail0(b), Tail0(c));
      }
    }
  }

  /** Strings compared character by character; a proper prefix is smaller. */
  function CompareStrings(a: string, b: string): (c: int)
    ensures -1 <= c <= 1
  {
    if a == [] && b == [] then 0
    else if a == [] then -1
    else if b == [] then 1
    else if a[0] < b[0] then -1
    else if a[0] > b[0] then 1
    else CompareStrings(a[1..], b[1..])
  }

  lemma {:induction false} CompareStringsAntisym(a: string, b: string)
    ensures CompareStrings(a, b) == -CompareStrings(b, a)
    ensures CompareStrings(a, b) == 0 <==> a == b
  {
    if a != [] && b != [] && a[0] == b[0] {
      CompareStringsAntisym(a[1..], b[1..]);
      assert a == [a[0]] + a[1..] && b == [b[0]] + b[1..];
    }
  }

  lemma {:induction false} CompareStringsTrans(a: string, b: string, c: string)
    requires CompareStrings(a, b) < 0 && CompareStrings(b, c) < 0
    ensures CompareStrings(a, c) < 0
  {
    if a != [] && b != [] && c != [] && a[0] == b[0] == c[0] {
      CompareStringsTrans(a[1..], b[1..], c[1..]);
    }
  }

  /** Numeric identifiers by value and below alphanumeric ones; alphanumeric ones lexically. */
  function CompareIdents(x: Ident, y: Ident): (c: int)
    ensures -1 <= c <= 1
  {
    match (x, y)
    case (Num(m), Num(n)) => if m < n then -1 else if m > n then 1 else 0
    case (Num(_), Alpha(_)) => -1
    case (Alpha(_), Num(_)) => 1
    case (Alpha(s), Alpha(t)) => CompareStrings(s, t)
  }

  lemma CompareIdentsAntisym(x: Ident, y: Ident)
    ensures CompareIdents(x, y) == -CompareIdents(y, x)
    ensures CompareIdents(x, y) == 0 <==> x == y
  {
    if x.Alpha? && y.Alpha? {
      CompareStringsAntisym(x.s, y.s);
    }
  }

  lemma CompareIdentsTrans(x: Ident, y: Ident, z: Ident)
    requires CompareIdents(x, y) < 0 && CompareIdents(y, z) < 0
    ensures CompareIdents(x, z) < 0
  {
    if x.Alpha? && y.Alpha? && z.Alpha? {
      CompareStringsTrans(x.s, y.s, z.s);
    }
  }

  /** Identifier lists compared element by element; a proper prefix is smaller. */
  function ComparePreIdents(p: seq<Ident>, q: seq<Ident>): (c: int)
    ensures -1 <= c <= 1
  {
    if p == [] && q == [] then 0
    else if p == [] then -1
    else if q == [] then 1
    else
      var c := CompareIdents(p[0], q[0]);
      if c != 0 then c else ComparePreIdents(p[1..], q[1..])
  }

  lemma {:induction false} ComparePreIdentsAntisym(p: seq<Ident>, q: seq<Ident>)
    ensures ComparePreIdents(p, q) == -ComparePreIdents(q, p)
    ensures ComparePreIdents(p, q) == 0 <==> p == q
  {
    if p != [] && q != [] {
      CompareIdentsAntisym(p[0], q[0]);
      ComparePreIdentsAntisym(p[1..], q[1..]);
      assert p == [p[0]] + p[1..] && q == [q[0]] + q[1..];
    }
  }

  lemma {:induction false} ComparePreIdentsTrans(p: seq<Ident>, q: seq<Ident>, r: seq<Ident>)
    requires ComparePreIdents(p, q) < 0 && ComparePreIdents(q, r) < 0
    ensures ComparePreIdents(p, r) < 0
  {
    if p != [] && q != [] && r != [] {
      CompareIdentsAntisym(p[0], q[0]);
      CompareIdentsAntisym(q[0], r[0]);
      CompareIdentsAntisym(p[0], r[0]);
      if CompareIdents(p[0], q[0]) == 0 && CompareIdents(q[0], r[0]) == 0 {
        ComparePreIdentsTrans(p[1..], q[1..], r[1..]);
      } else if CompareIdents(p[0], q[0]) < 0 && CompareIdents(q[0], r[0]) < 0 {
        CompareIdentsTrans(p[0], q[0], r[0]);
      }
    }
  }

  /** Pre-release parts of two versions with equal segments: a release is above every pre-release. */
  function ComparePre(p: seq<Ident>, q: seq<Ident>): (c: int)
    ensures -1 <= c <= 1
  {
    if p == [] && q == [] then 0
    else if p == [] then 1
    else if q == [] then -1
    else ComparePreIdents(p, q)
  }

  lemma ComparePreAntisym(p: seq<Ident>, q: seq<Ident>)
    ensures ComparePre(p, q) == -ComparePre(q, p)
    ensures ComparePre(p, q) == 0 <==> p == q
  {
    ComparePreIdentsAntisym(p, q);
  }

  lemma ComparePreTrans(p: seq<Ident>, q: seq<Ident>, r: seq<Ident>)
    requires ComparePre(p, q) < 0 && ComparePre(q, r) < 0
    ensures ComparePre(p, r) < 0
  {
    if p != [] && q != [] && r != [] {
      ComparePreIdentsTrans(p, q, r);
    }
  }

  /** The segment list the library stores: padded with zeros to at least three segments. */
  function Pad3(segs: seq<nat>): (r: seq<nat>)
    ensures |r| == if |segs| < 3 then 3 else |segs|
    ensures r[..|segs|] == segs
    ensures forall i :: |segs| <= i < |r| ==> r[i] == 0
    decreases 3 - |segs|
  {
    if |segs| < 3 then Pad3(segs + [0]) else segs
  }

  /**
   * `v.Compare(w)`: -1, 0 or 1 as `v` is below, equal to or above `w`.
   * The pre-release parts decide only when the stored (padded) segment
   * lists are identical; when they differ in length but agree once
   * zero-extended, the versions compare equal whatever their pre-releases.
   */
  function Compare(v: Version, w: Version): (c: int)
    ensures -1 <= c <= 1
  {
    var s := CompareSegments(v.segments, w.segments);
    if s != 0 then s
    else if Pad3(v.segments) == Pad3(w.segments) then ComparePre(v.pre, w.pre)
    else 0
  }

  lemma CompareAntisym(v: Version, w: Version)
    ensures Compare(v, w) == -Compare(w, v)
  {
    CompareSegmentsAntisym(v.segments, w.segments);
    ComparePreAntisym(v.pre, w.pre);
  }

  lemma CompareSelf(v: Version)
    ensures Compare(v, v) == 0
  {
    CompareAntisym(v, v);
  }

  lemma CompareTrans(u: Version, v: Version, w: Version)
    requires Compare(u, v) < 0 && Compare(v, w) < 0
    ensures Compare(u, w) < 0
  {
    CompareSegmentsTrans(u.segments, v.segments, w.segments);
    if CompareSegments(u.segments, w.segments) == 0 {
      ComparePreTrans(u.pre, v.pre, w.pre);
    }
  }

  /** A release is above each of its pre-releases. */
  lemma ReleaseAbovePrerelease(segs: seq<nat>, pre: seq<Ident>)
    requires pre != []
    ensures Compare(Version(segs, []), Version(segs, pre)) == 1
  {
    CompareSegmentsAntisym(segs, segs);
  }
}
