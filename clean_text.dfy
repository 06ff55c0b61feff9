/**
 * `clean_text` of the text parser: collapse whitespace, blank out non-ASCII runs, strip.
 */
module CleanText {
  import opened Strings

  predicate IsNonAscii(c: char) {
    !IsAscii(c)
  }

  predicate AllAscii(s: string) {
    forall k :: 0 <= k < |s| ==> IsAscii(s[k])
  }

  /** A character that may appear in cleaned text: ASCII, and `' '` if whitespace. */
  predicate IsCleanChar(c: char) {
    IsAscii(c) && (IsSpace(c) ==> c == ' ')
  }

  /** After both run replacements, every character is clean. */
  lemma BothRunsClean(raw: string)
    ensures var ascii := ReplaceRuns(ReplaceRuns(raw, IsSpace, ' '), IsNonAscii, ' ');
      forall k :: 0 <= k < |ascii| ==> IsCleanChar(ascii[k])
  {
    var spaced := ReplaceRuns(raw, IsSpace, ' ');
    assert forall c :: c in spaced && IsSpace(c) ==> c == ' ';
  }

  /** Stripping keeps only characters it was given. */
  lemma StripClean(s: string)
    requires forall k :: 0 <= k < |s| ==> IsCleanChar(s[k])
    ensures forall k :: 0 <= k < |Strip(s)| ==> IsCleanChar(Strip(s)[k])
  {
    StripIsSlice(s);
    var lo, r := StripStart(s), Strip(s);
    forall k | 0 <= k < |r| ensures IsCleanChar(r[k]) {
      assert r[k] == s[lo + k];
    }
  }

  /**
   * `clean_text(raw)`: every run of whitespace becomes one space, then every run of
   * non-ASCII characters becomes one space, then the ends are stripped. The result is
   * ASCII, has no whitespace at either end, and its only whitespace character is `' '`.
   */
  function CleanText(raw: string): (r: string)
    ensures raw == [] ==> r == []
    ensures AllAscii(r)
    ensures IsStripped(r)
    ensures forall k :: 0 <= k < |r| && IsSpace(r[k]) ==> r[k] == ' '
  {
    if raw == [] then []
    else
      var spaced := ReplaceRuns(raw, IsSpace, ' ');
      var ascii := ReplaceRuns(spaced, IsNonAscii, ' ');
      BothRunsClean(raw);
      StripClean(ascii);
      Strip(ascii)
  }

  predicate IsSpaceOrNonAscii(c: char) {
    IsSpace(c) || IsNonAscii(c)
  }

  /**
   * Cleaning keeps every character that is neither whitespace nor non-ASCII, in order,
   * and nothing else but single spaces.
   */
  lemma CleanKeepsAsciiText(raw: string)
    ensures NonSpace(CleanText(raw)) == Without(raw, IsSpaceOrNonAscii)
  {
    var r := CleanText(raw);
    WithoutSpace(r, IsSpaceOrNonAscii);
    if raw != [] {
      var spaced := ReplaceRuns(raw, IsSpace, ' ');
      var ascii := ReplaceRuns(spaced, IsNonAscii, ' ');
      assert RunsDropped(raw, IsSpace, IsSpaceOrNonAscii);
      ReplaceRunsWithout(raw, IsSpace, ' ', IsSpaceOrNonAscii);
      assert RunsDropped(spaced, IsNonAscii, IsSpaceOrNonAscii);
      ReplaceRunsWithout(spaced, IsNonAscii, ' ', IsSpaceOrNonAscii);
      assert RunsDropped(ascii, IsSpace, IsSpaceOrNonAscii);
      WithoutStrip(ascii, IsSpaceOrNonAscii);
    }
  }

  /** On ASCII input, cleaning changes whitespace only. */
  lemma AsciiCleanKeepsText(raw: string)
    requires AllAscii(raw)
    ensures NonSpace(CleanText(raw)) == NonSpace(raw)
  {
    CleanKeepsAsciiText(raw);
    WithoutSpace(raw, IsSpaceOrNonAscii);
  }

  /** On ASCII input, the result never holds two whitespace characters side by side. */
  lemma AsciiCleanHasNoDoubleSpace(raw: string)
    requires AllAscii(raw)
    ensures NoAdjacent(CleanText(raw), IsSpace)
  {
    if raw != [] {
      var spaced := ReplaceRuns(raw, IsSpace, ' ');
      ReplaceRunsNoAdjacent(raw, IsSpace, ' ');
      assert forall k :: 0 <= k < |spaced| ==> !IsNonAscii(spaced[k]);
      ReplaceRunsFixed(spaced, IsNonAscii, ' ');
      StripNoAdjacent(spaced);
    }
  }

  /**
   * On ASCII input, cleaning is `" ".join(raw.split())`: the words of the input, in
   * order, joined by single spaces.
   */
  lemma AsciiCleanIsJoinWords(raw: string)
    requires AllAscii(raw)
    ensures CleanText(raw) == JoinSpace(Words(raw))
  {
    if raw != [] {
      var spaced := ReplaceRuns(raw, IsSpace, ' ');
      ReplaceRunsNoAdjacent(raw, IsSpace, ' ');
      assert forall k :: 0 <= k < |spaced| ==> !IsNonAscii(spaced[k]);
      ReplaceRunsFixed(spaced, IsNonAscii, ' ');
      CollapseSpacesIsJoin(raw);
    }
  }

  /** `clean_text` is idempotent on ASCII input. */
  lemma AsciiCleanIdempotent(raw: string)
    requires AllAscii(raw)
    ensures CleanText(CleanText(raw)) == CleanText(raw)
  {
    var y := CleanText(raw);
    if y != [] {
      AsciiCleanHasNoDoubleSpace(raw);
      ReplaceRunsFixed(y, IsSpace, ' ');
      ReplaceRunsFixed(y, IsNonAscii, ' ');
      StrippedIsFixed(y);
    }
  }
}
