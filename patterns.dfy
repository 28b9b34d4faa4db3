/**
 * The five regular expressions of cmd/readFiles.go and the part of Go's
 * `regexp` semantics they exercise.
 *
 * Each of them has the shape
 *
 *     <open> [ .* ] ( <head> .+ ) "
 *
 * where <open> is a literal (`source="` or `source="git::`), the optional
 * `.*` appears only in the bitbucket expression, and <head> is a literal in
 * which '.' stands for any character (`github.com`, `https://`,
 * `bitbucket.org`, or nothing).  Go's leftmost-first semantics picks the
 * leftmost start; at that start the greedy `.*` takes the last position of
 * <head> that still leaves a match, and the greedy `.+` runs to the last
 * double quote of the line.
 */
module Patterns {
  import opened Wrappers
  import opened GoStrings

  /** One position of <head>: a literal character or '.', any character. */
  datatype PChar = Lit(c: char) | AnyChar

  /** A regexp literal in which '.' is the wildcard. */
  function Compile(s: string): (p: seq<PChar>)
    ensures |p| == |s|
    ensures forall k :: 0 <= k < |s| ==> (p[k] == AnyChar <==> s[k] == '.')
    ensures forall k :: 0 <= k < |s| ==> s[k] != '.' ==> p[k] == Lit(s[k])
  {
    if s == [] then [] else [if s[0] == '.' then AnyChar else Lit(s[0])] + Compile(s[1..])
  }

  predicate CharMatches(pc: PChar, c: char) {
    pc.AnyChar? || pc.c == c
  }

  /** <head> matches `line` at index `j`. */
  predicate HeadAt(line: string, head: seq<PChar>, j: int) {
    0 <= j && j + |head| <= |line| && forall k :: 0 <= k < |head| ==> CharMatches(head[k], line[j + k])
  }

  /** `<open> [.*] (<head>.+)"`; `skip` says whether the `.*` is present. */
  datatype Pattern = Pattern(open: string, skip: bool, head: seq<PChar>)

  /** `source="`, the literal every expression opens with. */
  const SourceOpen := "source=\""

  /** `source="(.+)"` */
  const SourceLine := Pattern(SourceOpen, false, [])
  /** `source="git::(.+)"` */
  const GenericGit := Pattern(SourceOpen + "git::", false, [])
  /** `source="(github.com.+)"` */
  const GitHub := Pattern(SourceOpen, false, Compile("github.com"))
  /** `source="(https://.+)"` */
  const Https := Pattern(SourceOpen, false, Compile("https://"))
  /** `source=".*(bitbucket.org.+)"` */
  const Bitbucket := Pattern(SourceOpen, true, Compile("bitbucket.org"))

  /**
   * One way the expression can match `line`: <open> at `p`, the capture
   * group from `j` up to the double quote at `q`.
   */
  predicate IsMatch(line: string, pat: Pattern, p: nat, j: nat, q: nat) {
    && OccursAt(line, pat.open, p)
    && (if pat.skip then p + |pat.open| <= j else j == p + |pat.open|)
    && HeadAt(line, pat.head, j)
    && j + |pat.head| < q < |line|
    && line[q] == '"'
  }

  /** A compiled literal matches wherever the literal itself occurs. */
  lemma HeadAtLiteral(line: string, s: string, j: nat)
    requires OccursAt(line, s, j)
    ensures HeadAt(line, Compile(s), j)
  {
    var h := Compile(s);
    forall k | 0 <= k < |h| ensures CharMatches(h[k], line[j + k]) {
      assert line[j + k] == line[j..j + |s|][k];
    }
  }

  /** The expression matches somewhere in `line`. */
  ghost predicate Matches(line: string, pat: Pattern) {
    exists p: nat, j: nat, q: nat :: IsMatch(line, pat, p, j, q)
  }

  /** The index of the last `c` in `s`. */
  function LastIndex(s: string, c: char): (r: Option<nat>)
    ensures r.Some? ==> r.value < |s| && s[r.value] == c && forall k :: r.value < k < |s| ==> s[k] != c
    ensures r.None? ==> forall k :: 0 <= k < |s| ==> s[k] != c
  {
    if s == [] then None
    else if s[|s| - 1] == c then Some(|s| - 1)
    else LastIndex(s[..|s| - 1], c)
  }

  /** The largest `j` in `lo..hi` at which <head> matches. */
  function LastHeadAt(line: string, head: seq<PChar>, lo: nat, hi: int): (r: Option<nat>)
    ensures r.Some? ==> lo <= r.value <= hi && HeadAt(line, head, r.value)
    ensures r.Some? ==> forall j :: r.value < j <= hi ==> !HeadAt(line, head, j)
    ensures r.None? ==> forall j :: lo <= j <= hi ==> !HeadAt(line, head, j)
    decreases hi - lo
  {
    if hi < lo then None
    else if HeadAt(line, head, hi) then Some(hi)
    else LastHeadAt(line, head, lo, hi - 1)
  }

  /**
   * The start of the capture group for <open> at `p` when the line's last
   * double quote is at `q`.
   */
  function CaptureStart(line: string, pat: Pattern, p: nat, q: nat): (r: Option<nat>)
    ensures r.Some? ==> p + |pat.open| <= r.value && r.value + |pat.head| < q
  {
    var lo := p + |pat.open|;
    if pat.skip then LastHeadAt(line, pat.head, lo, q - |pat.head| - 1)
    else if lo + |pat.head| < q && HeadAt(line, pat.head, lo) then Some(lo)
    else None
  }

  /** A match: where it starts, where its capture group starts, where its closing quote is. */
  datatype Span = Span(start: nat, capStart: nat, quote: nat)

  /** Scanning from `p` for the leftmost start of a match whose closing quote is `q`. */
  function Leftmost(line: string, pat: Pattern, q: nat, p: nat): (r: Option<Span>)
    ensures r.Some? ==> p <= r.value.start <= r.value.capStart < r.value.quote == q
    decreases |line| - p
  {
    if p >= |line| then None
    else if OccursAt(line, pat.open, p) && CaptureStart(line, pat, p, q).Some? then
      Some(Span(p, CaptureStart(line, pat, p, q).value, q))
    else Leftmost(line, pat, q, p + 1)
  }

  /** The leftmost-first match starting at or after `from`. */
  function Find(line: string, pat: Pattern, from: nat): (r: Option<Span>)
    ensures r.Some? ==> from <= r.value.start <= r.value.capStart < r.value.quote < |line|
  {
    match LastIndex(line, '"')
    case None => None
    case Some(q) => Leftmost(line, pat, q, from)
  }

  /** A match found by CaptureStart is one, and it uses the last quote. */
  lemma CaptureStartSound(line: string, pat: Pattern, p: nat, q: nat)
    requires LastIndex(line, '"') == Some(q)
    requires OccursAt(line, pat.open, p) && CaptureStart(line, pat, p, q).Some?
    ensures IsMatch(line, pat, p, CaptureStart(line, pat, p, q).value, q)
  {
  }

  /** Any match at `p` is dominated by the one CaptureStart picks: its capture starts no later, its quote is no later. */
  lemma CaptureStartComplete(line: string, pat: Pattern, p: nat, j: nat, q': nat, q: nat)
    requires LastIndex(line, '"') == Some(q)
    requires IsMatch(line, pat, p, j, q')
    ensures CaptureStart(line, pat, p, q).Some?
    ensures j <= CaptureStart(line, pat, p, q).value && q' <= q
  {
    assert q' <= q;
  }

  /** Where CaptureStart finds a capture, it is the best match at `p`. */
  lemma BestAt(line: string, pat: Pattern, q: nat, p: nat)
    requires LastIndex(line, '"') == Some(q)
    requires OccursAt(line, pat.open, p) && CaptureStart(line, pat, p, q).Some?
    ensures IsMatch(line, pat, p, CaptureStart(line, pat, p, q).value, q)
    ensures forall j: nat, q': nat :: IsMatch(line, pat, p, j, q') ==> j <= CaptureStart(line, pat, p, q).value && q' <= q
  {
    CaptureStartSound(line, pat, p, q);
    forall j: nat, q': nat | IsMatch(line, pat, p, j, q')
      ensures j <= CaptureStart(line, pat, p, q).value && q' <= q
    {
      CaptureStartComplete(line, pat, p, j, q', q);
    }
  }

  /** Where CaptureStart finds nothing, no match starts at `p`. */
  lemma NoneAt(line: string, pat: Pattern, q: nat, p: nat)
    requires LastIndex(line, '"') == Some(q)
    requires !(OccursAt(line, pat.open, p) && CaptureStart(line, pat, p, q).Some?)
    ensures forall j: nat, q': nat :: !IsMatch(line, pat, p, j, q')
  {
    forall j: nat, q': nat | IsMatch(line, pat, p, j, q') ensures false {
      CaptureStartComplete(line, pat, p, j, q', q);
    }
  }

  /** What Leftmost finds is a match. */
  lemma {:induction false} LeftmostSound(line: string, pat: Pattern, q: nat, p: nat)
    requires LastIndex(line, '"') == Some(q)
    ensures Leftmost(line, pat, q, p).Some? ==>
      var m := Leftmost(line, pat, q, p).value;
      IsMatch(line, pat, m.start, m.capStart, m.quote)
    decreases |line| - p
  {
    if p < |line| {
      if OccursAt(line, pat.open, p) && CaptureStart(line, pat, p, q).Some? {
        CaptureStartSound(line, pat, p, q);
      } else {
        LeftmostSound(line, pat, q, p + 1);
      }
    }
  }

  /**
   * What Leftmost finds is the leftmost start at or after `p`, and at that
   * start the capture group starts as late and the quote is as late as any
   * match allows.
   */
  lemma {:induction false} LeftmostBest(line: string, pat: Pattern, q: nat, p: nat)
    requires LastIndex(line, '"') == Some(q)
    ensures Leftmost(line, pat, q, p).Some? ==>
      var m := Leftmost(line, pat, q, p).value;
      forall p': nat, j: nat, q': nat :: p <= p' && IsMatch(line, pat, p', j, q') ==>
        m.start < p' || (m.start == p' && j <= m.capStart && q' <= m.quote)
    decreases |line| - p
  {
    if p < |line| {
      if OccursAt(line, pat.open, p) && CaptureStart(line, pat, p, q).Some? {
        BestAt(line, pat, q, p);
      } else {
        LeftmostBest(line, pat, q, p + 1);
        NoneAt(line, pat, q, p);
        if Leftmost(line, pat, q, p + 1).Some? {
          var m := Leftmost(line, pat, q, p + 1).value;
          forall p': nat, j: nat, q': nat | p <= p' && IsMatch(line, pat, p', j, q')
            ensures m.start < p' || (m.start == p' && j <= m.capStart && q' <= m.quote)
          {
            assert p + 1 <= p';
          }
        }
      }
    }
  }

  /** When Leftmost finds nothing, nothing matches at or after `p`. */
  lemma {:induction false} LeftmostNone(line: string, pat: Pattern, q: nat, p: nat)
    requires LastIndex(line, '"') == Some(q)
    ensures Leftmost(line, pat, q, p).None? ==>
      forall p': nat, j: nat, q': nat :: p <= p' ==> !IsMatch(line, pat, p', j, q')
    decreases |line| - p
  {
    if p < |line| && Leftmost(line, pat, q, p).None? {
      NoneAt(line, pat, q, p);
      LeftmostNone(line, pat, q, p + 1);
      forall p': nat, j: nat, q': nat | p <= p'
        ensures !IsMatch(line, pat, p', j, q')
      {
        if p' == p {
          assert !IsMatch(line, pat, p, j, q');
        }
      }
    }
  }

  /**
   * Find is the leftmost-first match at or after `from`: it is a match,
   * every other match there starts later, or at the same place with an
   * earlier-or-equal capture start and closing quote; with no result there
   * is no match at or after `from`.
   */
  lemma FindSpec(line: string, pat: Pattern, from: nat)
    ensures Find(line, pat, from).Some? ==>
      var m := Find(line, pat, from).value;
      IsMatch(line, pat, m.start, m.capStart, m.quote)
    ensures Find(line, pat, from).Some? ==>
      var m := Find(line, pat, from).value;
      forall p': nat, j: nat, q': nat :: from <= p' && IsMatch(line, pat, p', j, q') ==>
        m.start < p' || (m.start == p' && j <= m.capStart && q' <= m.quote)
    ensures Find(line, pat, from).None? ==>
      forall p': nat, j: nat, q': nat :: from <= p' ==> !IsMatch(line, pat, p', j, q')
  {
    match LastIndex(line, '"')
    case None =>
      forall p': nat, j: nat, q': nat | from <= p' ensures !IsMatch(line, pat, p', j, q') { }
    case Some(q) =>
      LeftmostSound(line, pat, q, from);
      LeftmostBest(line, pat, q, from);
      LeftmostNone(line, pat, q, from);
  }

  /**
   * A match at the very start of the line, closed by its last character,
   * whose capture cannot start later, is the one Find returns.
   */
  lemma FindAtStart(line: string, pat: Pattern, j: nat, q: nat)
    requires q + 1 == |line| && IsMatch(line, pat, 0, j, q)
    requires forall j': nat :: j < j' ==> !IsMatch(line, pat, 0, j', q)
    ensures Find(line, pat, 0) == Some(Span(0, j, q))
  {
    FindSpec(line, pat, 0);
    var m := Find(line, pat, 0).value;
    assert m.start == 0 && j <= m.capStart && m.quote == |line| - 1;
  }

  /** No match starts after a match's closing quote: there is no later double quote to close it. */
  lemma NothingAfterQuote(line: string, pat: Pattern, m: Span)
    requires Find(line, pat, 0) == Some(m)
    ensures Find(line, pat, m.quote + 1).None?
  {
    FindSpec(line, pat, 0);
    var q := LastIndex(line, '"').value;
    assert m.quote == q;
    FindSpec(line, pat, m.quote + 1);
  }

  /** The `[whole match, capture group]` pair of a match. */
  function Submatches(line: string, m: Span): seq<string>
    requires m.start <= m.capStart <= m.quote < |line|
  {
    [line[m.start..m.quote + 1], line[m.capStart..m.quote]]
  }

  /**
   * `re.FindAllStringSubmatch(line, n)` from offset `from`: successive
   * non-overlapping leftmost-first matches, at most `n` of them when `n`
   * is not negative.
   */
  function FindAllFrom(line: string, pat: Pattern, from: nat, n: int): (r: seq<seq<string>>)
    ensures forall i :: 0 <= i < |r| ==> |r[i]| == 2
    decreases |line| - from
  {
    if n == 0 then []
    else match Find(line, pat, from)
      case None => []
      case Some(m) => [Submatches(line, m)] + FindAllFrom(line, pat, m.quote + 1, n - 1)
  }

  /** `re.FindAllStringSubmatch(line, n)`: every match comes with its one capture group. */
  function FindAllStringSubmatch(line: string, pat: Pattern, n: int): (r: seq<seq<string>>)
    ensures forall i :: 0 <= i < |r| ==> |r[i]| == 2
  {
    FindAllFrom(line, pat, 0, n)
  }

  /**
   * The result of FindAllStringSubmatch for any `n` other than 0: empty
   * exactly when the expression does not match, and otherwise the single
   * leftmost-first match with its capture group, which is never empty.
   */
  lemma FindAllShape(line: string, pat: Pattern, n: int)
    requires n != 0
    ensures var r := FindAllStringSubmatch(line, pat, n);
      && (r == [] <==> !Matches(line, pat))
      && (r != [] ==>
            var m := Find(line, pat, 0).value;
            && |r| == 1 && |r[0]| == 2
            && IsMatch(line, pat, m.start, m.capStart, m.quote)
            && r[0][1] == line[m.capStart..m.quote]
            && |r[0][1]| > |pat.head|)
  {
    FindSpec(line, pat, 0);
    match Find(line, pat, 0)
    case None =>
    case Some(m) =>
      NothingAfterQuote(line, pat, m);
      assert FindAllFrom(line, pat, m.quote + 1, n - 1) == [];
  }
}
