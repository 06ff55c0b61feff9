/**
 * The clause splitter's `HEADING_RE`, hand-coded, and `finditer` over it.
 *
 *   (?:(?:^|\n)\s*(?:section|article)\s+\w+[:\.\s-]*)
 *   |(?:(?:^|\n)\s*\d+(?:\.\d+)*\s*[A-Z]?\s*[\-\.\)]?\s+)      with IGNORECASE
 *
 * `^` matches only at index 0 (no MULTILINE flag). The scanners below follow the
 * order in which Python's backtracking matcher tries the alternatives and
 * quantifiers, and return where the first successful path ends.
 */
module HeadingPattern {
  import opened Strings

  datatype Option<T> = None | Some(value: T)

  /** The span `[lo, hi)` of one match. */
  datatype Span = Span(lo: nat, hi: nat)

  /** `\d`, ASCII digits. */
  predicate IsDigit(c: char) {
    '0' <= c <= '9'
  }

  /** `[A-Z]` under IGNORECASE: an ASCII letter of either case. */
  predicate IsLetter(c: char) {
    'a' <= c <= 'z' || 'A' <= c <= 'Z'
  }

  /** `\w`, ASCII letters, digits and `_`. */
  predicate IsWordClass(c: char) {
    IsLetter(c) || IsDigit(c) || c == '_'
  }

  /** `[:\.\s-]` */
  predicate IsTitlePunct(c: char) {
    c == ':' || c == '.' || IsSpace(c) || c == '-'
  }

  /** `[\-\.\)]` */
  predicate IsNumberPunct(c: char) {
    c == '-' || c == '.' || c == ')'
  }

  /** The keyword `w` (lower case) occurs at `i`, compared case-insensitively. */
  predicate KeywordAt(s: string, i: nat, w: string) {
    i + |w| <= |s| && Lower(s[i..i + |w|]) == w
  }

  /** `\s*(?:section|article)\s+\w+[:\.\s-]*` tried at `q`: where it ends, if it matches. */
  function TitledAt(s: string, q: nat): (r: Option<nat>)
    requires q <= |s|
    ensures r.Some? ==> q < r.value <= |s|
  {
    var q1 := SkipWhile(s, q, IsSpace);
    if KeywordAt(s, q1, "section") || KeywordAt(s, q1, "article") then
      var q2 := q1 + 7;
      var q3 := SkipWhile(s, q2, IsSpace);
      if q2 < q3 < |s| && IsWordClass(s[q3]) then
        Some(SkipWhile(s, SkipWhile(s, q3, IsWordClass), IsTitlePunct))
      else None
    else None
  }

  /** `\d+(?:\.\d+)*` from the first digit at `j`: the end of the dotted number. */
  function DottedEnd(s: string, j: nat): (r: nat)
    requires j <= |s|
    ensures j <= r <= |s|
    decreases |s| - j
  {
    var k := SkipWhile(s, j, IsDigit);
    if k + 1 < |s| && s[k] == '.' && IsDigit(s[k + 1]) then DottedEnd(s, k + 1) else k
  }

  /**
   * `\s*[A-Z]?\s*[\-\.\)]?\s+` tried at `p`, with the backtracking worked out: the
   * greedy path first, then shorter whitespace runs that leave one whitespace
   * character for the final `\s+`.
   */
  function NumberTail(s: string, p: nat): (r: Option<nat>)
    requires p <= |s|
    ensures r.Some? ==> p < r.value <= |s|
  {
    var p1 := SkipWhile(s, p, IsSpace);
    if p1 < |s| && IsLetter(s[p1]) then
      var p3 := SkipWhile(s, p1 + 1, IsSpace);
      if p3 + 1 < |s| && IsNumberPunct(s[p3]) && IsSpace(s[p3 + 1]) then Some(SkipWhile(s, p3 + 1, IsSpace))
      else if p3 > p1 + 1 then Some(p3)
      else if p1 > p then Some(p1)
      else None
    else if p1 + 1 < |s| && IsNumberPunct(s[p1]) && IsSpace(s[p1 + 1]) then Some(SkipWhile(s, p1 + 1, IsSpace))
    else if p1 > p then Some(p1)
    else None
  }

  /** `\s*\d+(?:\.\d+)*\s*[A-Z]?\s*[\-\.\)]?\s+` tried at `q`. */
  function NumberedAt(s: string, q: nat): (r: Option<nat>)
    requires q <= |s|
    ensures r.Some? ==> q < r.value <= |s|
  {
    var q1 := SkipWhile(s, q, IsSpace);
    if q1 < |s| && IsDigit(s[q1]) then
      NumberTail(s, DottedEnd(s, q1))
    else None
  }

  /** `HEADING_RE.match(s, p)`: the end of the match starting at `p`, if there is one. */
  function MatchAt(s: string, p: nat): (r: Option<nat>)
    ensures r.Some? ==> p < |s| && (p == 0 || s[p] == '\n') && p < r.value <= |s|
  {
    if p >= |s| then None
    else
      var viaStart1 := if p == 0 then TitledAt(s, 0) else None;
      var alt1 := if viaStart1.Some? then viaStart1 else if s[p] == '\n' then TitledAt(s, p + 1) else None;
      if alt1.Some? then alt1
      else
        var viaStart2 := if p == 0 then NumberedAt(s, 0) else None;
        if viaStart2.Some? then viaStart2 else if s[p] == '\n' then NumberedAt(s, p + 1) else None
  }

  /** Spans that start at or after `from`, are non-empty, end by `n`, and each ends before the next starts. */
  predicate Placed(spans: seq<Span>, from: nat, n: nat) {
    spans == [] || (from <= spans[0].lo < spans[0].hi <= n && Placed(spans[1..], spans[0].hi, n))
  }

  /** `m` says, for each start, where the match starting there ends (if one does): after the start, by `n`. */
  ghost predicate IsMatcher(m: nat -> Option<nat>, n: nat) {
    forall p: nat :: m(p).Some? ==> p < m(p).value <= n
  }

  /** Every span is a match of `m`. */
  predicate AllMatch(m: nat -> Option<nat>, spans: seq<Span>) {
    spans == [] || (m(spans[0].lo) == Some(spans[0].hi) && AllMatch(m, spans[1..]))
  }

  /**
   * `finditer` from `pos` over a text of length `n` with the matcher `m`: try a match
   * at each position from left to right; after a match, carry on at its end.
   */
  function FindFrom(m: nat -> Option<nat>, n: nat, pos: nat): (r: seq<Span>)
    requires IsMatcher(m, n)
    ensures Placed(r, pos, n)
    ensures AllMatch(m, r)
    decreases n - pos
  {
    if pos >= n then []
    else
      match m(pos)
      case Some(e) =>
        var rest := FindFrom(m, n, e);
        assert ([Span(pos, e)] + rest)[1..] == rest;
        [Span(pos, e)] + rest
      case None => FindFrom(m, n, pos + 1)
  }

  /** Index `p` lies inside one of the spans. */
  predicate Inside(spans: seq<Span>, p: int) {
    spans != [] && (spans[0].lo <= p < spans[0].hi || Inside(spans[1..], p))
  }

  /**
   * `finditer` misses nothing: at every position from `pos` on that lies in no
   * reported span, there is no match.
   */
  lemma {:induction false} FindFromComplete(m: nat -> Option<nat>, n: nat, pos: nat, p: nat)
    requires IsMatcher(m, n)
    requires pos <= p && !Inside(FindFrom(m, n, pos), p)
    ensures m(p) == None
    decreases n - pos
  {
    if pos < n {
      var r := FindFrom(m, n, pos);
      match m(pos)
      case Some(e) =>
        assert r[1..] == FindFrom(m, n, e);
        if p >= e {
          FindFromComplete(m, n, e, p);
        }
      case None =>
        if p > pos {
          FindFromComplete(m, n, pos + 1, p);
        }
    }
  }

  /** The heading matcher. */
  function HeadingMatcher(s: string): (m: nat -> Option<nat>)
    ensures IsMatcher(m, |s|)
  {
    (p: nat) => MatchAt(s, p)
  }

  /** `HEADING_RE.finditer(s)`, as spans. */
  function Headings(s: string): seq<Span> {
    FindFrom(HeadingMatcher(s), |s|, 0)
  }

  /**
   * The headings of `s` are in order, do not overlap and lie within `s`; each is a
   * match of `HEADING_RE`; and no position outside them starts a match.
   */
  lemma HeadingsSound(s: string)
    ensures Placed(Headings(s), 0, |s|) && AllMatch(HeadingMatcher(s), Headings(s))
    ensures forall p: nat :: !Inside(Headings(s), p) ==> MatchAt(s, p) == None
  {
    forall p: nat | !Inside(Headings(s), p) ensures MatchAt(s, p) == None {
      FindFromComplete(HeadingMatcher(s), |s|, 0, p);
    }
  }

  /** A keyword found at `i` fixes the character there, up to case. */
  lemma KeywordFirst(s: string, i: nat, w: string)
    requires w != [] && KeywordAt(s, i, w)
    ensures i < |s| && LowerChar(s[i]) == w[0]
  {
    assert Lower(s[i..i + |w|])[0] == LowerChar(s[i..i + |w|][0]);
  }

  /** A section heading starts, after its leading whitespace, with a letter. */
  lemma TitledStartsWithLetter(s: string, q: nat)
    requires q <= |s| && TitledAt(s, q).Some?
    ensures var q1 := SkipWhile(s, q, IsSpace); q1 < |s| && IsLetter(s[q1])
  {
    var q1 := SkipWhile(s, q, IsSpace);
    if KeywordAt(s, q1, "section") {
      KeywordFirst(s, q1, "section");
    } else {
      KeywordFirst(s, q1, "article");
    }
  }

  /** A numbered heading starts, after its leading whitespace, with a digit. */
  lemma NumberedStartsWithDigit(s: string, q: nat)
    requires q <= |s| && NumberedAt(s, q).Some?
    ensures var q1 := SkipWhile(s, q, IsSpace); q1 < |s| && IsDigit(s[q1])
  {
  }

  /** The two alternatives exclude each other: a section heading never looks like a numbered one. */
  lemma AlternativesExclusive(s: string, q: nat)
    requires q <= |s|
    ensures !(TitledAt(s, q).Some? && NumberedAt(s, q).Some?)
  {
    if TitledAt(s, q).Some? && NumberedAt(s, q).Some? {
      TitledStartsWithLetter(s, q);
      NumberedStartsWithDigit(s, q);
    }
  }
}
