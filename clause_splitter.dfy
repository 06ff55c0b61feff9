/**
 * `split_into_clauses` of the clause splitter: normalise the text, find headings in a
 * masked lower-case copy, slice the text at the headings, merge short headings with
 * the part after them, cut long sections into sentences, restore placeholders and drop
 * repeated clauses.
 */
module ClauseSplitter {
  import opened Strings
  import opened HeadingPattern
  import opened SentencePattern

  // ---------------------------------------------------------------------------------
  // Normalisation

  /** `re.sub(r'\r\n?', '\n', s)`: every `\r\n` and every lone `\r` becomes `\n`. */
  function NormalizeNewlines(s: string): (r: string)
    ensures |r| <= |s|
    ensures forall k :: 0 <= k < |r| ==> r[k] != '\r'
    decreases |s|
  {
    if s == [] then []
    else if s[0] == '\r' then "\n" + NormalizeNewlines(if |s| > 1 && s[1] == '\n' then s[2..] else s[1..])
    else [s[0]] + NormalizeNewlines(s[1..])
  }

  /** `[ \t]` */
  predicate IsBlank(c: char) {
    c == ' ' || c == '\t'
  }

  /** `re.sub(r'[ \t]+', ' ', re.sub(r'\r\n?', '\n', text)).strip()` */
  function Normalize(text: string): string {
    Strip(ReplaceRuns(NormalizeNewlines(text), IsBlank, ' '))
  }

  /** Rewriting line breaks changes whitespace only. */
  lemma {:induction false} NormalizeNewlinesKeepsText(s: string)
    ensures NonSpace(NormalizeNewlines(s)) == NonSpace(s)
    decreases |s|
  {
    if s != [] {
      if s[0] == '\r' {
        var rest := if |s| > 1 && s[1] == '\n' then s[2..] else s[1..];
        NormalizeNewlinesKeepsText(rest);
        assert ("\n" + NormalizeNewlines(rest))[1..] == NormalizeNewlines(rest);
        if |s| > 1 && s[1] == '\n' {
          assert s[1..][1..] == s[2..];
        }
      } else {
        NormalizeNewlinesKeepsText(s[1..]);
        assert ([s[0]] + NormalizeNewlines(s[1..]))[1..] == NormalizeNewlines(s[1..]);
      }
    }
  }

  /** `\r\n?` → `\n` as two `replace` calls: first every `\r\n`, then every remaining `\r`. */
  lemma {:induction false} NormalizeNewlinesIsReplace(s: string)
    ensures NormalizeNewlines(s) == Replace(Replace(s, "\r\n", "\n"), "\r", "\n")
    decreases |s|
  {
    if s != [] {
      var pair := |s| > 1 && s[0] == '\r' && s[1] == '\n';
      var rest := if pair then s[2..] else s[1..];
      NormalizeNewlinesIsReplace(rest);
      var y := Replace(rest, "\r\n", "\n");
      if pair {
        CrLfHead(s);
        ReplaceCharHead('\n', y, "\r", "\n");
      } else {
        NoCrLfHead(s);
        ReplaceCharHead(s[0], y, "\r", "\n");
      }
    }
  }

  lemma CrLfHead(s: string)
    requires |s| > 1 && s[0] == '\r' && s[1] == '\n'
    ensures Replace(s, "\r\n", "\n") == "\n" + Replace(s[2..], "\r\n", "\n")
  {
    assert s[..2] == "\r\n";
  }

  lemma NoCrLfHead(s: string)
    requires s != [] && !(|s| > 1 && s[0] == '\r' && s[1] == '\n')
    ensures Replace(s, "\r\n", "\n") == [s[0]] + Replace(s[1..], "\r\n", "\n")
  {
    if |s| > 1 {
      assert s[..2] != "\r\n" by {
        assert s[..2][0] == s[0] && s[..2][1] == s[1];
      }
    }
  }

  /**
   * Collapsing runs of blanks keeps every other character in order, line breaks
   * included, so the headings' `\n` anchors survive.
   */
  lemma BlanksKeepOthers(t: string)
    ensures Without(ReplaceRuns(t, IsBlank, ' '), IsBlank) == Without(t, IsBlank)
  {
    ReplaceRunsWithout(t, IsBlank, ' ', IsBlank);
  }

  /**
   * The normalised text has no carriage return, no tab and no whitespace at either
   * end, and holds exactly the non-whitespace characters of the input, in order.
   */
  lemma NormalizeSound(text: string)
    ensures var t := Normalize(text);
      && IsStripped(t)
      && (forall k :: 0 <= k < |t| ==> t[k] != '\r' && t[k] != '\t')
      && NonSpace(t) == NonSpace(text)
  {
    var n := NormalizeNewlines(text);
    var b := ReplaceRuns(n, IsBlank, ' ');
    assert forall k :: 0 <= k < |b| ==> b[k] != '\r' && b[k] != '\t';
    StripIsSlice(b);
    NormalizeNewlinesKeepsText(text);
    ReplaceRunsNonSpace(n, IsBlank, ' ');
    NonSpaceStrip(b);
  }

  // ---------------------------------------------------------------------------------
  // The masked lower-case copy

  /** The `protected` table, in the dictionary's iteration order. */
  const Protected: seq<(string, string)> := [
    ("pvt. ltd.", "pvt__ltd__"), ("e.g.", "eg__"), ("i.e.", "ie__"), ("etc.", "etc__"),
    ("Mr.", "Mr__"), ("Mrs.", "Mrs__"), ("Dr.", "Dr__")]

  /** `text.lower()` with every key of `protected` replaced by its value, in table order. */
  method MaskAbbreviations(text: string) returns (lowerText: string)
    ensures lowerText == Masked(text)
  {
    lowerText := Lower(text);
    for k := 0 to |Protected|
      invariant lowerText == ReplaceAll(Lower(text), Protected[..k])
    {
      ReplaceAllStep(Lower(text), Protected, k);
      lowerText := Replace(lowerText, Protected[k].0, Protected[k].1);
    }
    assert Protected[..|Protected|] == Protected;
  }

  /** The masked copy of `text`. */
  function Masked(text: string): string {
    assert KeysNonEmpty(Protected);
    ReplaceAll(Lower(text), Protected)
  }

  /**
   * Masking runs on the lower-cased text, so the keys `Mr.`, `Mrs.` and `Dr.` never
   * match: only the first four entries take effect. The masked copy has no upper-case
   * letter and is at least as long as the text (`pvt. ltd.` and `etc.` grow by one).
   */
  lemma MaskedFacts(text: string)
    ensures Masked(text) == ReplaceAll(Lower(text), Protected[..4])
    ensures NoUpper(Masked(text))
    ensures |Masked(text)| >= |text|
  {
    var x := Lower(text);
    LowerHasNoUpper(text);
    FirstFourFacts(x);
    UpperKeysInert(x);
  }

  /** The four lower-case entries keep a string free of upper case, and never shorten it. */
  lemma FirstFourFacts(x: string)
    requires NoUpper(x)
    ensures NoUpper(ReplaceAll(x, Protected[..4])) && |ReplaceAll(x, Protected[..4])| >= |x|
  {
    assert KeysNonEmpty(Protected);
    forall k | 0 <= k < 4 ensures NoUpper(Protected[k].1) && |Protected[k].0| <= |Protected[k].1| { }
    assert ReplaceAll(x, Protected[..0]) == x;
    for i := 0 to 4
      invariant NoUpper(ReplaceAll(x, Protected[..i])) && |ReplaceAll(x, Protected[..i])| >= |x|
    {
      ReplaceAllStep(x, Protected, i);
      ReplaceNoUpper(ReplaceAll(x, Protected[..i]), Protected[i].0, Protected[i].1);
      ReplaceLength(ReplaceAll(x, Protected[..i]), Protected[i].0, Protected[i].1);
    }
  }

  /** On a string free of upper case after the first four entries, the last three change nothing. */
  lemma UpperKeysInert(x: string)
    requires NoUpper(ReplaceAll(x, Protected[..4]))
    ensures ReplaceAll(x, Protected) == ReplaceAll(x, Protected[..4])
  {
    assert KeysNonEmpty(Protected);
    var m := ReplaceAll(x, Protected[..4]);
    forall k | 4 <= k < 7 ensures IsUpper(Protected[k].0[0]) { }
    for i := 4 to 7
      invariant ReplaceAll(x, Protected[..i]) == m
    {
      ReplaceAllStep(x, Protected, i);
      NoUpperExcludes(m, Protected[i].0, 0);
      ReplaceAbsent(m, Protected[i].0, Protected[i].1);
    }
    assert Protected[..7] == Protected;
  }

  // ---------------------------------------------------------------------------------
  // Restoring placeholders

  /** The chain of replacements in `restore`, in order. */
  const Placeholders: seq<(string, string)> := [
    ("pvt__ltd__", "Pvt. Ltd."), ("eg__", "e.g."), ("ie__", "i.e."), ("etc__", "etc."),
    ("Mr__", "Mr."), ("Mrs__", "Mrs."), ("Dr__", "Dr.")]

  /** `restore(s)` */
  function Restore(s: string): string {
    assert KeysNonEmpty(Placeholders);
    ReplaceAll(s, Placeholders)
  }

  /**
   * Every placeholder contains `__`, so a clause without `__` is left as it is, and a
   * non-empty clause stays non-empty.
   */
  lemma RestoreFacts(s: string)
    ensures !Contains(s, "__") ==> Restore(s) == s
    ensures s != [] ==> Restore(s) != []
  {
    assert KeysNonEmpty(Placeholders);
    if !Contains(s, "__") {
      var at: seq<nat> := [3, 2, 2, 3, 2, 3, 2];
      forall k | 0 <= k < |Placeholders| ensures !Contains(s, Placeholders[k].0) {
        var w := Placeholders[k].0;
        assert OccursAt(w, "__", at[k]);
        ContainsIff(w, "__");
        if Contains(s, w) {
          ContainsTransitive(s, w, "__");
        }
      }
      ReplaceAllAbsent(s, Placeholders);
    }
    if s != [] {
      ReplaceAllNonEmpty(s, Placeholders);
    }
  }

  // ---------------------------------------------------------------------------------
  // Slicing the text at the headings

  /** Python's `s[a:b]` for `a, b >= 0`: both bounds are clamped to the length. */
  function PySlice(s: string, a: nat, b: nat): (r: string)
    ensures a <= b <= |s| ==> r == s[a..b]
    ensures b <= a ==> r == []
    ensures a <= |s| < b ==> r == s[a..]
    ensures |s| <= a ==> r == []
  {
    var lo := Min(a, |s|);
    var hi := Min(b, |s|);
    if lo < hi then s[lo..hi] else []
  }

  /** Where the scan stands after the spans: the end of the last one, or 0. */
  function LastEnd(spans: seq<Span>): nat {
    if spans == [] then 0 else spans[|spans| - 1].hi
  }

  /** The parts one heading adds: the gap before it, if there is one, then the heading itself. */
  function Piece(text: string, last: nat, m: Span): seq<string> {
    (if m.lo > last then [Strip(PySlice(text, last, m.lo))] else [])
    + [Strip(PySlice(text, m.lo, m.hi))]
  }

  /** The parts emitted inside the `finditer` loop for the spans. */
  function PartsBefore(text: string, spans: seq<Span>): seq<string> {
    if spans == [] then []
    else
      var init := spans[..|spans| - 1];
      PartsBefore(text, init) + Piece(text, LastEnd(init), spans[|spans| - 1])
  }

  /** One more span adds its piece, starting where the spans before it left off. */
  lemma PartsBeforeStep(text: string, spans: seq<Span>, i: nat)
    requires i < |spans|
    ensures PartsBefore(text, spans[..i + 1]) == PartsBefore(text, spans[..i]) + Piece(text, LastEnd(spans[..i]), spans[i])
    ensures LastEnd(spans[..i + 1]) == spans[i].hi
  {
    assert spans[..i + 1][..i] == spans[..i];
  }

  /** The part after the last heading, if the text goes on past it. */
  function TailPart(text: string, last: nat): seq<string> {
    if last < |text| then [Strip(text[last..])] else []
  }

  /** The parts for the heading spans `spans` found in the masked copy. */
  function HeadingSplit(text: string, spans: seq<Span>): seq<string> {
    PartsBefore(text, spans) + TailPart(text, LastEnd(spans))
  }

  /**
   * The `finditer` loop: the gap before each span and the span itself are sliced from `text`
   * (not from the masked copy the spans come from), then the tail after the last span.
   */
  method SplitAtHeadings(text: string, spans: seq<Span>) returns (parts: seq<string>)
    ensures parts == HeadingSplit(text, spans)
  {
    parts := [];
    var lastIndex: nat := 0;
    for i := 0 to |spans|
      invariant parts == PartsBefore(text, spans[..i])
      invariant lastIndex == LastEnd(spans[..i])
    {
      var m := spans[i];
      PartsBeforeStep(text, spans, i);
      ghost var before := parts;
      if m.lo > lastIndex {
        parts := parts + [Strip(PySlice(text, lastIndex, m.lo))];
      }
      parts := parts + [Strip(PySlice(text, m.lo, m.hi))];
      PieceAppend(before, text, lastIndex, m);
      lastIndex := m.hi;
    }
    if lastIndex < |text| {
      parts := parts + [Strip(text[lastIndex..])];
    }
    PrefixWhole(spans);
  }

  /** Appending the gap, when there is one, and then the heading appends the heading's piece. */
  lemma PieceAppend(parts: seq<string>, text: string, last: nat, m: Span)
    ensures (if m.lo > last then parts + [Strip(PySlice(text, last, m.lo))] else parts) + [Strip(PySlice(text, m.lo, m.hi))]
      == parts + Piece(text, last, m)
  {
    if m.lo > last {
      Assoc(parts, [Strip(PySlice(text, last, m.lo))], [Strip(PySlice(text, m.lo, m.hi))]);
    } else {
      assert [] + [Strip(PySlice(text, m.lo, m.hi))] == [Strip(PySlice(text, m.lo, m.hi))];
    }
  }

  /** Spans that are non-empty, in order and do not overlap. */
  predicate Ordered(spans: seq<Span>) {
    forall k :: 0 <= k < |spans| ==> spans[k].lo < spans[k].hi && (k == 0 || spans[k - 1].hi <= spans[k].lo)
  }

  /** The headings found by `finditer` are ordered. */
  lemma {:induction false} PlacedOrdered(spans: seq<Span>, from: nat, n: nat)
    requires Placed(spans, from, n)
    ensures Ordered(spans) && (spans != [] ==> from <= spans[0].lo)
    decreases |spans|
  {
    if spans != [] {
      PlacedOrdered(spans[1..], spans[0].hi, n);
      forall k | 0 < k < |spans| ensures spans[k - 1].hi <= spans[k].lo {
        assert spans[k] == spans[1..][k - 1];
        if k > 1 {
          assert spans[k - 1] == spans[1..][k - 2];
        }
      }
    }
  }

  /** Contiguous clamped slices join up. */
  lemma PySliceJoin(s: string, a: nat, b: nat, c: nat)
    requires a <= b <= c
    ensures PySlice(s, a, c) == PySlice(s, a, b) + PySlice(s, b, c)
  {
  }

  /** The parts of one heading hold the text from the previous heading's end to its own. */
  lemma PieceKeepsText(text: string, last: nat, m: Span)
    requires last <= m.lo <= m.hi
    ensures NonSpace(Concat(Piece(text, last, m))) == NonSpace(PySlice(text, last, m.hi))
  {
    var gap := PySlice(text, last, m.lo);
    var head := PySlice(text, m.lo, m.hi);
    PySliceJoin(text, last, m.lo, m.hi);
    NonSpaceAppend(gap, head);
    NonSpaceStrip(head);
    SingleContent(Strip(head));
    if m.lo > last {
      ContentAppend([Strip(gap)], [Strip(head)]);
      SingleContent(Strip(gap));
      NonSpaceStrip(gap);
    } else {
      assert gap == [];
      assert [] + [Strip(head)] == [Strip(head)];
    }
  }

  /** The parts emitted in the loop hold the text up to the end of the last heading. */
  lemma {:induction false} PartsBeforeKeepText(text: string, spans: seq<Span>)
    requires Ordered(spans)
    ensures NonSpace(Concat(PartsBefore(text, spans))) == NonSpace(PySlice(text, 0, LastEnd(spans)))
    decreases |spans|
  {
    if spans != [] {
      var init := spans[..|spans| - 1];
      var m := spans[|spans| - 1];
      assert Ordered(init);
      PartsBeforeKeepText(text, init);
      assert LastEnd(init) <= m.lo;
      PieceKeepsText(text, LastEnd(init), m);
      ContentAppend(PartsBefore(text, init), Piece(text, LastEnd(init), m));
      PySliceJoin(text, 0, LastEnd(init), m.hi);
      NonSpaceAppend(PySlice(text, 0, LastEnd(init)), PySlice(text, LastEnd(init), m.hi));
    }
  }

  /**
   * Slicing at ordered heading spans keeps every non-whitespace character of the text,
   * in order, even where the spans, found in the longer masked copy, run past the text.
   */
  lemma HeadingSplitKeepsText(text: string, spans: seq<Span>)
    requires Ordered(spans)
    ensures NonSpace(Concat(HeadingSplit(text, spans))) == NonSpace(text)
  {
    var last := LastEnd(spans);
    PartsBeforeKeepText(text, spans);
    ContentAppend(PartsBefore(text, spans), TailPart(text, last));
    PySliceWhole(text, last);
    if last < |text| {
      SingleContent(Strip(text[last..]));
      NonSpaceStrip(text[last..]);
      NonSpaceAppend(PySlice(text, 0, last), text[last..]);
    } else {
      assert NonSpace(Concat([])) + [] == [];
    }
  }

  /** The slice up to `last` and the rest make up the text. */
  lemma PySliceWhole(text: string, last: nat)
    ensures last < |text| ==> text == PySlice(text, 0, last) + text[last..]
    ensures last >= |text| ==> PySlice(text, 0, last) == text
  {
  }

  // ---------------------------------------------------------------------------------
  // Merging short headings with the part after them

  /** A part with at most 8 words is joined with a next part of more than 2 words. */
  predicate Joins(p: string, next: string) {
    WordCount(p) <= 8 && WordCount(next) > 2
  }

  /** The merge pass from part `i` on. */
  function MergeFrom(parts: seq<string>, i: nat): seq<string>
    requires i <= |parts|
    decreases |parts| - i
  {
    if i == |parts| then []
    else
      var p := Strip(parts[i]);
      if i + 1 < |parts| && Joins(p, parts[i + 1]) then [Strip(p + " " + parts[i + 1])] + MergeFrom(parts, i + 2)
      else [p] + MergeFrom(parts, i + 1)
  }

  /** The merge loop: one greedy pass, left to right, that joins a short part with the next. */
  method MergeHeadings(parts: seq<string>) returns (merged: seq<string>)
    ensures merged == MergeFrom(parts, 0)
  {
    merged := [];
    var i := 0;
    while i < |parts|
      invariant i <= |parts|
      invariant merged + MergeFrom(parts, i) == MergeFrom(parts, 0)
      decreases |parts| - i
    {
      var p := Strip(parts[i]);
      if i + 1 < |parts| && Joins(p, parts[i + 1]) {
        MergeJoinStep(parts, merged, i);
        merged := merged + [Strip(p + " " + parts[i + 1])];
        i := i + 2;
      } else {
        MergeAloneStep(parts, merged, i);
        merged := merged + [p];
        i := i + 1;
      }
    }
  }

  /** A part that joins the next one makes one merged section of the two. */
  lemma MergeJoinStep(parts: seq<string>, merged: seq<string>, i: nat)
    requires i + 1 < |parts| && Joins(Strip(parts[i]), parts[i + 1])
    ensures merged + MergeFrom(parts, i)
      == (merged + [Strip(Strip(parts[i]) + " " + parts[i + 1])]) + MergeFrom(parts, i + 2)
  {
    AppendAssoc(merged, Strip(Strip(parts[i]) + " " + parts[i + 1]), MergeFrom(parts, i + 2));
  }

  /** A part that does not join the next one is kept alone, stripped. */
  lemma MergeAloneStep(parts: seq<string>, merged: seq<string>, i: nat)
    requires i < |parts| && !(i + 1 < |parts| && Joins(Strip(parts[i]), parts[i + 1]))
    ensures merged + MergeFrom(parts, i) == (merged + [Strip(parts[i])]) + MergeFrom(parts, i + 1)
  {
    MergeAloneHead(parts, i);
    AppendAssoc(merged, Strip(parts[i]), MergeFrom(parts, i + 1));
  }

  lemma MergeAloneHead(parts: seq<string>, i: nat)
    requires i < |parts| && !(i + 1 < |parts| && Joins(Strip(parts[i]), parts[i + 1]))
    ensures MergeFrom(parts, i) == [Strip(parts[i])] + MergeFrom(parts, i + 1)
  {
  }

  /** The elements of a list with one element put in front. */
  lemma ConsElements<T>(x: T, xs: seq<T>)
    ensures |[x] + xs| == |xs| + 1 && ([x] + xs)[0] == x
    ensures forall k :: 0 < k <= |xs| ==> ([x] + xs)[k] == xs[k - 1]
  {
  }

  lemma AppendAssoc<T>(a: seq<T>, x: T, b: seq<T>)
    ensures (a + [x]) + b == a + ([x] + b)
  {
  }

  /** The merge never lengthens the list and at most halves it. */
  lemma {:induction false} MergeLength(parts: seq<string>, i: nat)
    requires i <= |parts|
    ensures (|parts| - i + 1) / 2 <= |MergeFrom(parts, i)| <= |parts| - i
    decreases |parts| - i
  {
    if i < |parts| {
      var p := Strip(parts[i]);
      if i + 1 < |parts| && Joins(p, parts[i + 1]) {
        MergeLength(parts, i + 2);
      } else {
        MergeLength(parts, i + 1);
      }
    }
  }

  /** Joining a stripped part, a space and the next part removes whitespace only. */
  lemma JoinKeepsText(p: string, q: string)
    ensures NonSpace(Strip(Strip(p) + " " + q)) == NonSpace(p) + NonSpace(q)
  {
    var a := Strip(p);
    NonSpaceStrip(a + " " + q);
    SpaceJoinContent(a, q);
    NonSpaceStrip(p);
  }

  /** A space between two strings holds no content. */
  lemma SpaceJoinContent(a: string, q: string)
    ensures NonSpace(a + " " + q) == NonSpace(a) + NonSpace(q)
  {
    var sp := " ";
    assert AllSpace(sp) by { assert IsSpace(sp[0]); }
    NonSpaceOfSpaces(sp);
    NonSpaceAppend(a + sp, q);
    NonSpaceAppend(a, sp);
  }

  /** The content of a list from index `i` is that of its element `i` followed by the rest. */
  lemma ContentFrom(xs: seq<string>, i: nat)
    requires i < |xs|
    ensures NonSpace(Concat(xs[i..])) == NonSpace(xs[i]) + NonSpace(Concat(xs[i + 1..]))
  {
    assert xs[i..] == [xs[i]] + xs[i + 1..];
    ConsContent(xs[i], xs[i + 1..]);
  }

  lemma ConsContent(x: string, xs: seq<string>)
    ensures NonSpace(Concat([x] + xs)) == NonSpace(x) + NonSpace(Concat(xs))
  {
    ConcatCons(x, xs);
    NonSpaceAppend(x, Concat(xs));
  }

  lemma SuffixCons(xs: seq<string>, i: nat)
    requires i < |xs|
    ensures xs[i..] == [xs[i]] + xs[i + 1..]
  {
  }

  /** A merged section with the content of two parts keeps their content, followed by the rest. */
  lemma JoinedContent(j: string, x: string, y: string, merged: seq<string>, rest: seq<string>)
    requires NonSpace(j) == NonSpace(x) + NonSpace(y)
    requires NonSpace(Concat(merged)) == NonSpace(Concat(rest))
    ensures NonSpace(Concat([j] + merged)) == NonSpace(Concat([x, y] + rest))
  {
    var a, b, c := NonSpace(x), NonSpace(y), NonSpace(Concat(rest));
    ConsContent(j, merged);
    PairContent(x, y, rest);
    Assoc(a, b, c);
  }


  /** The content of a list that starts with two parts. */
  lemma PairContent(x: string, y: string, rest: seq<string>)
    ensures NonSpace(Concat([x, y] + rest)) == NonSpace(x) + (NonSpace(y) + NonSpace(Concat(rest)))
  {
    PairCons(x, y, rest);
    ConsContent(x, [y] + rest);
    ConsContent(y, rest);
  }

  lemma PairCons<T>(x: T, y: T, rest: seq<T>)
    ensures [x, y] + rest == [x] + ([y] + rest)
  {
  }

  /** A part standing alone keeps its content, followed by the rest. */
  lemma AloneContent(x: string, merged: seq<string>, rest: seq<string>)
    requires NonSpace(Concat(merged)) == NonSpace(Concat(rest))
    ensures NonSpace(Concat([Strip(x)] + merged)) == NonSpace(Concat([x] + rest))
  {
    ConsContent(Strip(x), merged);
    ConsContent(x, rest);
    NonSpaceStrip(x);
  }

  /**
   * Every part is used exactly once and in order: the merged list holds the
   * non-whitespace characters of the parts from `i` on, in order.
   */
  lemma {:induction false} MergeKeepsText(parts: seq<string>, i: nat)
    requires i <= |parts|
    ensures NonSpace(Concat(MergeFrom(parts, i))) == NonSpace(Concat(parts[i..]))
    decreases |parts| - i
  {
    if i == |parts| {
      assert parts[i..] == [];
    } else if i + 1 < |parts| && Joins(Strip(parts[i]), parts[i + 1]) {
      MergeKeepsText(parts, i + 2);
      SuffixCons(parts, i);
      SuffixCons(parts, i + 1);
      assert [parts[i]] + ([parts[i + 1]] + parts[i + 2..]) == [parts[i], parts[i + 1]] + parts[i + 2..];
      JoinKeepsText(parts[i], parts[i + 1]);
      JoinedContent(Strip(Strip(parts[i]) + " " + parts[i + 1]), parts[i], parts[i + 1], MergeFrom(parts, i + 2), parts[i + 2..]);
    } else {
      MergeKeepsText(parts, i + 1);
      SuffixCons(parts, i);
      AloneContent(parts[i], MergeFrom(parts, i + 1), parts[i + 1..]);
    }
  }

  /** No part from `i` on joins the part after it. */
  predicate NoJoinFrom(parts: seq<string>, i: nat) {
    forall k :: i <= k && k + 1 < |parts| ==> !Joins(Strip(parts[k]), parts[k + 1])
  }

  /** `r` is the parts from `i` on, each stripped. */
  predicate StrippedFrom(parts: seq<string>, i: nat, r: seq<string>) {
    |r| == |parts| - i && forall k :: 0 <= k < |r| ==> r[k] == Strip(parts[i + k])
  }

  /** Where no part joins the next, the merge only strips each part. */
  lemma {:induction false} MergeWithoutJoins(parts: seq<string>, i: nat)
    requires i <= |parts| && NoJoinFrom(parts, i)
    ensures StrippedFrom(parts, i, MergeFrom(parts, i))
    decreases |parts| - i
  {
    if i < |parts| {
      NoJoinHead(parts, i);
      MergeWithoutJoins(parts, i + 1);
      MergeAloneHead(parts, i);
      StrippedCons(parts, i, MergeFrom(parts, i + 1));
    }
  }

  lemma NoJoinHead(parts: seq<string>, i: nat)
    requires i < |parts| && NoJoinFrom(parts, i)
    ensures NoJoinFrom(parts, i + 1)
    ensures !(i + 1 < |parts| && Joins(Strip(parts[i]), parts[i + 1]))
  {
  }

  lemma StrippedCons(parts: seq<string>, i: nat, rest: seq<string>)
    requires i < |parts| && StrippedFrom(parts, i + 1, rest)
    ensures StrippedFrom(parts, i, [Strip(parts[i])] + rest)
  {
    var r := [Strip(parts[i])] + rest;
    ConsElements(Strip(parts[i]), rest);
    forall k | 0 < k < |r| ensures r[k] == Strip(parts[i + k]) {
      assert r[k] == rest[k - 1];
      assert (i + 1) + (k - 1) == i + k;
    }
  }


  /** A part that joins the next one makes the merged list shorter than the parts. */
  lemma MergeJoinShortens(parts: seq<string>, i: nat)
    requires i + 1 < |parts| && Joins(Strip(parts[i]), parts[i + 1])
    ensures |MergeFrom(parts, i)| < |parts| - i
  {
    MergeLength(parts, i + 2);
  }

  // ---------------------------------------------------------------------------------
  // Cutting long sections into sentences

  /** The stripped, non-empty fragments, in order. */
  function KeepNonEmpty(frags: seq<string>): seq<string> {
    if frags == [] then []
    else
      var f := Strip(frags[|frags| - 1]);
      KeepNonEmpty(frags[..|frags| - 1]) + (if f == [] then [] else [f])
  }

  /** The candidate clauses of one merged section. */
  function SectionClauses(sec: string): seq<string> {
    var c := Strip(sec);
    if c == [] then []
    else if |c| < 200 then [c]
    else KeepNonEmpty(SplitSentences(c))
  }

  /** The candidate clauses of all merged sections, in order. */
  function Candidates(secs: seq<string>): seq<string> {
    if secs == [] then [] else Candidates(secs[..|secs| - 1]) + SectionClauses(secs[|secs| - 1])
  }

  /** The clause loop: a section under 200 characters is kept whole, a longer one is cut into sentences. */
  method SplitLongSections(merged: seq<string>) returns (clauses: seq<string>)
    ensures clauses == Candidates(merged)
  {
    clauses := [];
    for k := 0 to |merged|
      invariant clauses == Candidates(merged[..k])
    {
      CandidatesStep(merged, k);
      var secClean := Strip(merged[k]);
      if secClean != [] {
        if |secClean| < 200 {
          clauses := clauses + [secClean];
        } else {
          var frags := SplitSentences(secClean);
          ghost var before := clauses;
          for j := 0 to |frags|
            invariant clauses == before + KeepNonEmpty(frags[..j])
          {
            KeepNonEmptyStep(frags, j);
            var s := Strip(frags[j]);
            if s != [] {
              Assoc(before, KeepNonEmpty(frags[..j]), [s]);
              clauses := clauses + [s];
            }
          }
          PrefixWhole(frags);
        }
      }
    }
    PrefixWhole(merged);
  }

  /** One more section adds its candidate clauses. */
  lemma CandidatesStep(secs: seq<string>, k: nat)
    requires k < |secs|
    ensures Candidates(secs[..k + 1]) == Candidates(secs[..k]) + SectionClauses(secs[k])
  {
    assert secs[..k + 1][..k] == secs[..k];
  }

  /** One more fragment is kept, stripped, exactly when it does not strip to empty. */
  lemma KeepNonEmptyStep(frags: seq<string>, j: nat)
    requires j < |frags|
    ensures Strip(frags[j]) == [] ==> KeepNonEmpty(frags[..j + 1]) == KeepNonEmpty(frags[..j])
    ensures Strip(frags[j]) != [] ==> KeepNonEmpty(frags[..j + 1]) == KeepNonEmpty(frags[..j]) + [Strip(frags[j])]
  {
    assert frags[..j + 1][..j] == frags[..j];
  }

  lemma PrefixWhole<T>(xs: seq<T>)
    ensures xs[..|xs|] == xs
  {
  }

  /** Each fragment of a sentence list is a sentence. */
  lemma {:induction false} SentencesEach(r: seq<string>)
    requires Sentences(r)
    ensures forall k :: 0 <= k < |r| ==> IsSentence(r[k])
    decreases |r|
  {
    if |r| > 1 {
      SentencesEach(r[1..]);
      forall k | 0 < k < |r| ensures IsSentence(r[k]) {
        assert r[k] == r[1..][k - 1];
      }
    }
  }

  /** Fragments that are already stripped and non-empty are all kept, unchanged. */
  lemma {:induction false} KeepNonEmptyFixed(frags: seq<string>)
    requires forall k :: 0 <= k < |frags| ==> frags[k] != [] && IsStripped(frags[k])
    ensures KeepNonEmpty(frags) == frags
    decreases |frags|
  {
    if frags != [] {
      var init, last := frags[..|frags| - 1], frags[|frags| - 1];
      forall k | 0 <= k < |init| ensures init[k] != [] && IsStripped(init[k]) {
        assert init[k] == frags[k];
      }
      KeepNonEmptyFixed(init);
      StrippedIsFixed(last);
      InitLast(frags);
    }
  }

  /**
   * A stripped section under 200 characters yields exactly itself; a longer one yields
   * its sentences: it is cut at every whitespace run after `.`, `?` or `!` and nowhere
   * else (`CutInto`), every piece but the last ends in that punctuation, and no piece
   * is empty or has a cut inside it.
   */
  lemma SectionShape(sec: string)
    ensures var c := Strip(sec);
      && (c == [] ==> SectionClauses(sec) == [])
      && (0 < |c| < 200 ==> SectionClauses(sec) == [c])
      && (|c| >= 200 ==>
            && SectionClauses(sec) == SplitSentences(c) && Sentences(SplitSentences(c))
            && exists gaps :: CutInto(c, SplitSentences(c), gaps))
  {
    var c := Strip(sec);
    if |c| >= 200 {
      SplitSentencesSound(c);
      SentencesEach(SplitSentences(c));
      KeepNonEmptyFixed(SplitSentences(c));
    }
  }

  /** The candidates of a section hold the section's non-whitespace characters, in order. */
  lemma SectionKeepsText(sec: string)
    ensures NonSpace(Concat(SectionClauses(sec))) == NonSpace(sec)
  {
    var c := Strip(sec);
    NonSpaceStrip(sec);
    SectionShape(sec);
    if c == [] {
      assert NonSpace(c) == [];
    } else if |c| < 200 {
      SingleContent(c);
    } else {
      SplitSentencesSound(c);
    }
  }

  /** Every candidate clause of a section is stripped and non-empty. */
  lemma SectionClean(sec: string)
    ensures forall k :: 0 <= k < |SectionClauses(sec)| ==>
      SectionClauses(sec)[k] != [] && IsStripped(SectionClauses(sec)[k])
  {
    var c := Strip(sec);
    var r := SectionClauses(sec);
    SectionShape(sec);
    if |c| >= 200 {
      var fs := SplitSentences(c);
      SentencesEach(fs);
      assert r == fs;
      forall k | 0 <= k < |r| ensures r[k] != [] && IsStripped(r[k]) {
        assert IsSentence(fs[k]);
      }
    }
  }

  /** The candidates hold the non-whitespace characters of all merged sections, in order. */
  lemma {:induction false} CandidatesKeepText(secs: seq<string>)
    ensures NonSpace(Concat(Candidates(secs))) == NonSpace(Concat(secs))
    decreases |secs|
  {
    if secs != [] {
      var init, last := secs[..|secs| - 1], secs[|secs| - 1];
      CandidatesKeepText(init);
      ContentAppend(Candidates(init), SectionClauses(last));
      SectionKeepsText(last);
      InitLast(secs);
      ContentAppend(init, [last]);
      SingleContent(last);
    }
  }

  /** Every candidate clause is stripped and non-empty. */
  lemma {:induction false} CandidatesClean(secs: seq<string>)
    ensures forall k :: 0 <= k < |Candidates(secs)| ==>
      Candidates(secs)[k] != [] && IsStripped(Candidates(secs)[k])
    decreases |secs|
  {
    if secs != [] {
      var init := secs[..|secs| - 1];
      CandidatesClean(init);
      SectionClean(secs[|secs| - 1]);
    }
  }

  // ---------------------------------------------------------------------------------
  // Restoring and de-duplicating

  /** `restore` applied to every clause. */
  function Restored(cs: seq<string>): (r: seq<string>)
    ensures |r| == |cs|
  {
    if cs == [] then [] else Restored(cs[..|cs| - 1]) + [Restore(cs[|cs| - 1])]
  }

  /** The list with every repeated element dropped, first occurrences kept in order. */
  function Dedup(xs: seq<string>): seq<string> {
    if xs == [] then []
    else
      var d := Dedup(xs[..|xs| - 1]);
      if xs[|xs| - 1] in d then d else d + [xs[|xs| - 1]]
  }

  predicate Distinct(xs: seq<string>) {
    forall i, j :: 0 <= i < j < |xs| ==> xs[i] != xs[j]
  }

  /** The index of the first occurrence of `x` in `xs`. */
  function FirstIndex(xs: seq<string>, x: string): (i: nat)
    requires x in xs
    ensures i < |xs| && xs[i] == x
    ensures forall k :: 0 <= k < i ==> xs[k] != x
  {
    var init := xs[..|xs| - 1];
    if x in init then FirstIndex(init, x) else |xs| - 1
  }

  /** The output loop: restore each clause and keep it unless an equal one was kept before. */
  method RestoreAndDedup(clauses: seq<string>) returns (out: seq<string>)
    ensures out == Dedup(Restored(clauses))
  {
    out := [];
    var seen: set<string> := {};
    for k := 0 to |clauses|
      invariant out == Dedup(Restored(clauses[..k]))
      invariant forall x :: x in seen <==> x in out
    {
      var r := Restore(clauses[k]);
      DedupStep(clauses, k);
      if r !in seen {
        out := out + [r];
        seen := seen + {r};
      }
    }
    assert clauses[..|clauses|] == clauses;
  }

  /** One more clause: its restored form is kept exactly when it is new. */
  lemma DedupStep(cs: seq<string>, k: nat)
    requires k < |cs|
    ensures var d, r := Dedup(Restored(cs[..k])), Restore(cs[k]);
      Dedup(Restored(cs[..k + 1])) == if r in d then d else d + [r]
  {
    assert cs[..k + 1][..k] == cs[..k];
    var rs := Restored(cs[..k + 1]);
    assert rs[..|rs| - 1] == Restored(cs[..k]);
  }

  /** The restored clauses are `restore` of the clauses, one for one. */
  lemma {:induction false} RestoredEach(cs: seq<string>)
    ensures forall k :: 0 <= k < |cs| ==> Restored(cs)[k] == Restore(cs[k])
    decreases |cs|
  {
    if cs != [] {
      RestoredEach(cs[..|cs| - 1]);
    }
  }

  /**
   * The clauses are cut from the unmasked text, so `restore` changes only a clause that
   * already held `__`: clauses without it come through as they are.
   */
  lemma {:induction false} RestoredWithoutPlaceholders(cs: seq<string>)
    requires forall k :: 0 <= k < |cs| ==> !Contains(cs[k], "__")
    ensures Restored(cs) == cs
    decreases |cs|
  {
    if cs != [] {
      RestoredWithoutPlaceholders(cs[..|cs| - 1]);
      RestoreFacts(cs[|cs| - 1]);
      InitLast(cs);
    }
  }

  /** `Dedup` leaves no two equal elements and keeps exactly the elements of its input. */
  lemma {:induction false} DedupFacts(xs: seq<string>)
    ensures Distinct(Dedup(xs))
    ensures forall x :: x in Dedup(xs) <==> x in xs
    decreases |xs|
  {
    if xs != [] {
      var init := xs[..|xs| - 1];
      DedupFacts(init);
      assert xs == init + [xs[|xs| - 1]];
    }
  }

  /** `Dedup` lists the elements in the order of their first occurrences. */
  lemma {:induction false} DedupOrder(xs: seq<string>)
    ensures forall x :: x in Dedup(xs) ==> x in xs
    ensures forall i, j :: 0 <= i < j < |Dedup(xs)| ==> FirstIndex(xs, Dedup(xs)[i]) < FirstIndex(xs, Dedup(xs)[j])
    decreases |xs|
  {
    if xs != [] {
      var init, x := xs[..|xs| - 1], xs[|xs| - 1];
      DedupOrder(init);
      DedupFacts(init);
      var d := Dedup(init);
      forall y | y in d ensures FirstIndex(xs, y) == FirstIndex(init, y) < |init| {
      }
      if x !in d {
        assert FirstIndex(xs, x) == |init|;
      }
    }
  }

  /** A list without repeats is its own `Dedup`. */
  lemma {:induction false} DedupOfDistinct(xs: seq<string>)
    requires Distinct(xs)
    ensures Dedup(xs) == xs
    decreases |xs|
  {
    if xs != [] {
      var init := xs[..|xs| - 1];
      DedupOfDistinct(init);
      assert xs == init + [xs[|xs| - 1]];
    }
  }

  // ---------------------------------------------------------------------------------
  // The whole splitter

  /** The clauses before `restore` and de-duplication. */
  function CandidateClauses(text: string): seq<string> {
    if text == [] then []
    else
      var t := Normalize(text);
      Candidates(MergeFrom(HeadingSplit(t, Headings(Masked(t))), 0))
  }

  /**
   * `split_into_clauses(text)`: the candidate clauses, restored and de-duplicated. The
   * result is empty for empty input, has no two equal clauses and no empty clause.
   */
  method SplitIntoClauses(text: string) returns (out: seq<string>)
    ensures out == Dedup(Restored(CandidateClauses(text)))
    ensures text == [] ==> out == []
    ensures Distinct(out)
    ensures forall k :: 0 <= k < |out| ==> out[k] != []
  {
    if text == [] {
      return [];
    }
    var t := Normalize(text);
    var lowerText := MaskAbbreviations(t);
    var parts := SplitAtHeadings(t, Headings(lowerText));
    var merged := MergeHeadings(parts);
    var clauses := SplitLongSections(merged);
    out := RestoreAndDedup(clauses);
    OutputClean(text);
  }

  /** Restoring and de-duplicating non-empty clauses gives distinct, non-empty clauses. */
  lemma RestoreDedupClean(cs: seq<string>)
    requires forall k :: 0 <= k < |cs| ==> cs[k] != []
    ensures var out := Dedup(Restored(cs));
      Distinct(out) && forall k :: 0 <= k < |out| ==> out[k] != []
  {
    var rs := Restored(cs);
    RestoredEach(cs);
    forall k | 0 <= k < |rs| ensures rs[k] != [] {
      RestoreFacts(cs[k]);
    }
    DedupFacts(rs);
  }

  /** No output clause is empty, and no two are equal. */
  lemma OutputClean(text: string)
    ensures var out := Dedup(Restored(CandidateClauses(text)));
      Distinct(out) && forall k :: 0 <= k < |out| ==> out[k] != []
  {
    var cs := CandidateClauses(text);
    assert forall k :: 0 <= k < |cs| ==> cs[k] != [] by {
      if text != [] {
        var t := Normalize(text);
        CandidatesClean(MergeFrom(HeadingSplit(t, Headings(Masked(t))), 0));
      }
    }
    RestoreDedupClean(cs);
  }

  /**
   * Before `restore` and de-duplication the splitter loses no non-whitespace
   * character of the text and adds none: the candidate clauses, joined, hold exactly
   * the text's non-whitespace characters in their original order.
   */
  lemma CandidatesKeepAllText(text: string)
    ensures NonSpace(Concat(CandidateClauses(text))) == NonSpace(text)
  {
    if text != [] {
      var t := Normalize(text);
      var spans := Headings(Masked(t));
      var parts := HeadingSplit(t, spans);
      NormalizeSound(text);
      PlacedOrdered(spans, 0, |Masked(t)|);
      HeadingSplitKeepsText(t, spans);
      MergeKeepsText(parts, 0);
      assert parts[0..] == parts;
      CandidatesKeepText(MergeFrom(parts, 0));
    }
  }
}
