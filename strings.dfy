/**
 * Python `str` built-ins that the pipeline relies on, over `string` (`seq<char>`):
 * whitespace as `str.isspace`, `str.split()`, `str.strip()` and the regex class `\s`
 * see it, ASCII `str.lower()`, the substring test `w in s`, `str.replace`, and the
 * regex substitution "replace every maximal run of a character class by one character".
 */
module Strings {

  /** Python's whitespace: the characters for which `str.isspace()` holds. */
  predicate IsSpace(c: char) {
    c == ' ' || ('\t' <= c <= '\r') || ('\U{1c}' <= c <= '\U{1f}')
    || c == '\U{85}' || c == '\U{a0}' || c == '\U{1680}'
    || ('\U{2000}' <= c <= '\U{200a}') || c == '\U{2028}' || c == '\U{2029}'
    || c == '\U{202f}' || c == '\U{205f}' || c == '\U{3000}'
  }

  predicate IsAscii(c: char) {
    (c as int) < 128
  }

  predicate IsUpper(c: char) {
    'A' <= c <= 'Z'
  }

  /** `str.lower()` restricted to ASCII: `A`..`Z` become `a`..`z`, every other character is kept. */
  function LowerChar(c: char): char {
    if IsUpper(c) then ((c as int) + 32) as char else c
  }

  function Lower(s: string): string {
    seq(|s|, k requires 0 <= k < |s| => LowerChar(s[k]))
  }

  predicate NoUpper(s: string) {
    forall k :: 0 <= k < |s| ==> !IsUpper(s[k])
  }

  predicate AllSpace(s: string) {
    forall k :: 0 <= k < |s| ==> IsSpace(s[k])
  }

  /** Concatenation of a list of strings, `"".join(xs)`. */
  function Concat(xs: seq<string>): string {
    if xs == [] then [] else xs[0] + Concat(xs[1..])
  }

  /** The characters of `s` that are not whitespace, in order. */
  function NonSpace(s: string): string {
    if s == [] then [] else (if IsSpace(s[0]) then [] else [s[0]]) + NonSpace(s[1..])
  }

  /** `min(a, b)` */
  function Min(a: int, b: int): (r: int)
    ensures r <= a && r <= b && (r == a || r == b)
  {
    if a < b then a else b
  }

  // ---------------------------------------------------------------------------------
  // Scanning

  /** The first index at or after `i` whose character does not satisfy `p` (or `|s|`). */
  function SkipWhile(s: string, i: nat, p: char -> bool): (j: nat)
    requires i <= |s|
    ensures i <= j <= |s|
    ensures forall k :: i <= k < j ==> p(s[k])
    ensures j < |s| ==> !p(s[j])
    decreases |s| - i
  {
    if i < |s| && p(s[i]) then SkipWhile(s, i + 1, p) else i
  }

  // ---------------------------------------------------------------------------------
  // str.strip()

  predicate IsStripped(s: string) {
    s == [] || (!IsSpace(s[0]) && !IsSpace(s[|s| - 1]))
  }

  /** `s.strip()`: drop whitespace from the front, then from the back, until neither end is whitespace. */
  function Strip(s: string): (r: string)
    ensures |r| <= |s|
    ensures IsStripped(r)
    decreases |s|
  {
    if s != [] && IsSpace(s[0]) then Strip(s[1..])
    else if s != [] && IsSpace(s[|s| - 1]) then Strip(s[..|s| - 1])
    else s
  }

  /** How many whitespace characters `s` starts with. */
  function StripStart(s: string): (n: nat)
    ensures n <= |s|
  {
    if s != [] && IsSpace(s[0]) then 1 + StripStart(s[1..]) else 0
  }

  /** `r` is the slice of `s` from `lo`, and every character of `s` outside it is whitespace. */
  predicate SliceAmidSpace(s: string, lo: nat, r: string) {
    && lo + |r| <= |s| && r == s[lo..lo + |r|]
    && forall k :: 0 <= k < |s| && !(lo <= k < lo + |r|) ==> IsSpace(s[k])
  }

  /** Putting whitespace in front of `s` moves the slice one place on. */
  lemma SliceAfterSpace(s: string, lo: nat, r: string)
    requires s != [] && IsSpace(s[0]) && SliceAmidSpace(s[1..], lo, r)
    ensures SliceAmidSpace(s, lo + 1, r)
  {
    assert s[1..][lo..lo + |r|] == s[lo + 1..lo + 1 + |r|];
    forall k | 0 < k < |s| && !(lo + 1 <= k < lo + 1 + |r|) ensures IsSpace(s[k]) {
      assert s[k] == s[1..][k - 1];
    }
  }

  /** Putting whitespace after `s` keeps the slice where it is. */
  lemma SliceBeforeSpace(s: string, r: string)
    requires s != [] && IsSpace(s[|s| - 1]) && SliceAmidSpace(s[..|s| - 1], 0, r)
    ensures SliceAmidSpace(s, 0, r)
  {
    assert s[..|s| - 1][0..|r|] == s[0..|r|];
    forall k | 0 <= k < |s| - 1 && !(0 <= k < |r|) ensures IsSpace(s[k]) {
      assert s[k] == s[..|s| - 1][k];
    }
  }

  /**
   * The result of `strip` is the slice of `s` that starts after its leading whitespace,
   * and every character outside that slice is whitespace.
   */
  lemma {:induction false} StripIsSlice(s: string)
    ensures SliceAmidSpace(s, StripStart(s), Strip(s))
    decreases |s|
  {
    if s != [] && IsSpace(s[0]) {
      var t := s[1..];
      StripIsSlice(t);
      SliceAfterSpace(s, StripStart(t), Strip(t));
    } else if s != [] && IsSpace(s[|s| - 1]) {
      var t := s[..|s| - 1];
      StripIsSlice(t);
      assert StripStart(t) == 0;
      SliceBeforeSpace(s, Strip(t));
    } else {
      assert SliceAmidSpace(s, 0, s);
    }
  }

  lemma StrippedIsFixed(s: string)
    requires IsStripped(s)
    ensures Strip(s) == s
  {
    if s != [] {
      assert StripStart(s) == 0;
    }
  }

  lemma StripEmptyIffAllSpace(s: string)
    ensures Strip(s) == [] <==> AllSpace(s)
  {
    StripIsSlice(s);
    var r := Strip(s);
    assert r != [] ==> r[0] == s[StripStart(s)];
  }

  // ---------------------------------------------------------------------------------
  // Whitespace-free content

  lemma {:induction false} NonSpaceAppend(a: string, b: string)
    ensures NonSpace(a + b) == NonSpace(a) + NonSpace(b)
    decreases |a|
  {
    if a == [] {
      assert a + b == b;
    } else {
      assert (a + b)[1..] == a[1..] + b;
      NonSpaceAppend(a[1..], b);
    }
  }

  lemma {:induction false} NonSpaceOfSpaces(s: string)
    requires AllSpace(s)
    ensures NonSpace(s) == []
    decreases |s|
  {
    if s != [] {
      NonSpaceOfSpaces(s[1..]);
    }
  }

  /** Stripping removes whitespace only. */
  lemma NonSpaceStrip(s: string)
    ensures NonSpace(Strip(s)) == NonSpace(s)
  {
    StripIsSlice(s);
    SliceAmidSpaceContent(s, StripStart(s), Strip(s));
  }

  /** A slice with only whitespace around it has the content of the whole. */
  lemma SliceAmidSpaceContent(s: string, lo: nat, r: string)
    requires SliceAmidSpace(s, lo, r)
    ensures NonSpace(r) == NonSpace(s)
  {
    var hi := lo + |r|;
    ThreeParts(s, lo, hi);
    SpacesOutside(s, lo, r);
    NonSpaceAppend(s[..lo] + r, s[hi..]);
    NonSpaceAppend(s[..lo], r);
    NonSpaceOfSpaces(s[..lo]);
    NonSpaceOfSpaces(s[hi..]);
  }

  lemma ThreeParts<T>(s: seq<T>, lo: nat, hi: nat)
    requires lo <= hi <= |s|
    ensures s == (s[..lo] + s[lo..hi]) + s[hi..]
  {
  }

  /** What lies before and after a slice amid whitespace is all whitespace. */
  lemma SpacesOutside(s: string, lo: nat, r: string)
    requires SliceAmidSpace(s, lo, r)
    ensures AllSpace(s[..lo]) && AllSpace(s[lo + |r|..])
  {
    var hi := lo + |r|;
    forall k | 0 <= k < lo ensures IsSpace(s[..lo][k]) {
      assert s[..lo][k] == s[k];
    }
    forall k | 0 <= k < |s| - hi ensures IsSpace(s[hi..][k]) {
      assert s[hi..][k] == s[hi + k];
    }
  }

  /** Dropping a run of whitespace from the middle of a string keeps its non-whitespace characters. */
  lemma NonSpaceSkipSpaces(s: string, lo: nat, mid: nat, hi: nat)
    requires lo <= mid <= hi <= |s|
    requires forall k :: mid <= k < hi ==> IsSpace(s[k])
    ensures NonSpace(s[lo..]) == NonSpace(s[lo..mid]) + NonSpace(s[hi..])
  {
    assert s[lo..] == s[lo..mid] + (s[mid..hi] + s[hi..]);
    NonSpaceAppend(s[lo..mid], s[mid..hi] + s[hi..]);
    NonSpaceAppend(s[mid..hi], s[hi..]);
    assert AllSpace(s[mid..hi]) by {
      forall k | 0 <= k < hi - mid ensures IsSpace(s[mid..hi][k]) {
        assert s[mid..hi][k] == s[mid + k];
      }
    }
    NonSpaceOfSpaces(s[mid..hi]);
  }

  /** The content of a one-element list is that of its element. */
  lemma SingleContent(x: string)
    ensures NonSpace(Concat([x])) == NonSpace(x)
  {
    ConcatCons(x, []);
    assert x + [] == x;
  }

  /** A non-empty list is its front followed by its last element. */
  lemma InitLast<T>(xs: seq<T>)
    requires xs != []
    ensures xs == xs[..|xs| - 1] + [xs[|xs| - 1]]
  {
  }

  lemma ConcatCons(x: string, xs: seq<string>)
    ensures Concat([x] + xs) == x + Concat(xs)
  {
    assert ([x] + xs)[1..] == xs;
  }

  lemma {:induction false} ConcatAppend(xs: seq<string>, ys: seq<string>)
    ensures Concat(xs + ys) == Concat(xs) + Concat(ys)
    decreases |xs|
  {
    if xs == [] {
      assert xs + ys == ys;
    } else {
      assert (xs + ys)[1..] == xs[1..] + ys;
      ConcatAppend(xs[1..], ys);
    }
  }

  /** The non-whitespace content of a joined list splits at any point of the list. */
  lemma ContentAppend(xs: seq<string>, ys: seq<string>)
    ensures NonSpace(Concat(xs + ys)) == NonSpace(Concat(xs)) + NonSpace(Concat(ys))
  {
    ConcatAppend(xs, ys);
    NonSpaceAppend(Concat(xs), Concat(ys));
  }

  // ---------------------------------------------------------------------------------
  // len(s.split())

  predicate IsWordChar(c: char) {
    !IsSpace(c)
  }

  /** `len(s.split())`: the number of maximal runs of non-whitespace characters. */
  function WordCount(s: string): nat
    decreases |s|
  {
    if s == [] then 0
    else if IsSpace(s[0]) then WordCount(s[1..])
    else 1 + WordCount(s[SkipWhile(s, 0, IsWordChar)..])
  }

  /** A word starts at `k`: a non-whitespace character at the start or after whitespace. */
  predicate IsWordStart(s: string, k: nat)
    requires k < |s|
  {
    !IsSpace(s[k]) && (k == 0 || IsSpace(s[k - 1]))
  }

  /** The number of word starts at or after `i`. */
  function StartsFrom(s: string, i: nat): nat
    decreases |s| - i
  {
    if i >= |s| then 0 else (if IsWordStart(s, i) then 1 else 0) + StartsFrom(s, i + 1)
  }

  /** `len(s.split())` counts the positions where a word starts. */
  lemma WordCountIsStarts(s: string)
    ensures WordCount(s) == StartsFrom(s, 0)
  {
    WordCountFrom(s, 0);
    assert s[0..] == s;
  }

  lemma {:induction false} WordCountFrom(s: string, i: nat)
    requires i <= |s|
    requires i == 0 || i == |s| || IsSpace(s[i - 1]) || IsSpace(s[i])
    ensures CountsFrom(s, i)
    decreases |s| - i
  {
    if i < |s| {
      if IsSpace(s[i]) {
        WordCountFrom(s, i + 1);
        SpaceStep(s, i);
      } else {
        var d := WordFirst(s, i);
        WordCountFrom(s, i + d);
        WordStep(s, i, d);
      }
    }
  }

  /** Counting the words of `s[i..]` is counting the word starts from `i`. */
  predicate CountsFrom(s: string, i: nat)
    requires i <= |s|
  {
    WordCount(s[i..]) == StartsFrom(s, i)
  }

  lemma SpaceStep(s: string, i: nat)
    requires i < |s| && IsSpace(s[i]) && CountsFrom(s, i + 1)
    ensures CountsFrom(s, i)
  {
    SpaceFirst(s, i);
    assert StartsFrom(s, i) == StartsFrom(s, i + 1);
  }

  lemma WordStep(s: string, i: nat, d: nat)
    requires i < |s| && !IsSpace(s[i]) && (i == 0 || IsSpace(s[i - 1]))
    requires 0 < d && i + d <= |s| && WordCount(s[i..]) == 1 + WordCount(s[i + d..])
    requires forall k :: i <= k < i + d ==> !IsSpace(s[k])
    requires CountsFrom(s, i + d)
    ensures CountsFrom(s, i)
  {
    InsideWord(s, i, i + d);
    assert IsWordStart(s, i);
    assert StartsFrom(s, i) == 1 + StartsFrom(s, i + 1);
  }

  lemma SpaceFirst(s: string, i: nat)
    requires i < |s| && IsSpace(s[i])
    ensures WordCount(s[i..]) == WordCount(s[i + 1..])
  {
    assert s[i..][0] == s[i] && s[i..][1..] == s[i + 1..];
  }

  /** A word starts at `i` and runs for `d` characters. */
  lemma WordFirst(s: string, i: nat) returns (d: nat)
    requires i < |s| && !IsSpace(s[i])
    ensures 0 < d && i + d <= |s| && WordCount(s[i..]) == 1 + WordCount(s[i + d..])
    ensures forall k :: i <= k < i + d ==> !IsSpace(s[k])
    ensures i + d < |s| ==> IsSpace(s[i + d])
  {
    assert s[i..][0] == s[i];
    d := SkipWhile(s[i..], 0, IsWordChar);
    WordEnd(s, i, d);
  }

  /** Where the word at `i` ends, counted from `i`. */
  lemma WordEnd(s: string, i: nat, d: nat)
    requires i < |s| && d == SkipWhile(s[i..], 0, IsWordChar)
    ensures i + d <= |s| && s[i..][d..] == s[i + d..]
    ensures forall k :: i <= k < i + d ==> !IsSpace(s[k])
    ensures i + d < |s| ==> IsSpace(s[i + d])
  {
    var t := s[i..];
    forall k | i <= k < i + d ensures !IsSpace(s[k]) {
      assert t[k - i] == s[k];
    }
    if i + d < |s| {
      assert t[d] == s[i + d];
    }
  }

  /** Inside a word no new word starts. */
  lemma {:induction false} InsideWord(s: string, i: nat, j: nat)
    requires i < j <= |s|
    requires forall k :: i <= k < j ==> !IsSpace(s[k])
    ensures StartsFrom(s, i + 1) == StartsFrom(s, j)
    decreases j - i
  {
    if i + 1 < j {
      InsideWord(s, i + 1, j);
    }
  }

  /** A word of `s.split()`: non-empty and free of whitespace. */
  predicate IsWord(w: string) {
    w != [] && forall k :: 0 <= k < |w| ==> !IsSpace(w[k])
  }

  /** `s.split()`: the maximal runs of non-whitespace characters, in order. */
  function Words(s: string): (ws: seq<string>)
    ensures forall k :: 0 <= k < |ws| ==> IsWord(ws[k])
    decreases |s|
  {
    if s == [] then []
    else if IsSpace(s[0]) then Words(s[1..])
    else
      var j := SkipWhile(s, 0, IsWordChar);
      assert forall k :: 0 <= k < j ==> s[..j][k] == s[k];
      [s[..j]] + Words(s[j..])
  }

  /** `" ".join(ws)` */
  function JoinSpace(ws: seq<string>): string {
    if ws == [] then []
    else if |ws| == 1 then ws[0]
    else ws[0] + " " + JoinSpace(ws[1..])
  }

  /** `len(s.split())` is the length of `s.split()`. */
  lemma {:induction false} WordCountIsWords(s: string)
    ensures WordCount(s) == |Words(s)|
    decreases |s|
  {
    if s != [] {
      if IsSpace(s[0]) {
        WordCountIsWords(s[1..]);
      } else {
        WordCountIsWords(s[SkipWhile(s, 0, IsWordChar)..]);
      }
    }
  }

  /** Joined words have no whitespace at either end, and are non-empty if there is a word. */
  lemma {:induction false} JoinStripped(ws: seq<string>)
    requires forall k :: 0 <= k < |ws| ==> IsWord(ws[k])
    ensures IsStripped(JoinSpace(ws)) && (ws != [] ==> JoinSpace(ws) != [])
    decreases |ws|
  {
    if |ws| > 1 {
      var rest := JoinSpace(ws[1..]);
      JoinStripped(ws[1..]);
      var j := ws[0] + " " + rest;
      assert j[0] == ws[0][0] && j[|j| - 1] == rest[|rest| - 1];
    }
  }

  lemma JoinCons(x: string, ws: seq<string>)
    requires ws != []
    ensures JoinSpace([x] + ws) == x + " " + JoinSpace(ws)
  {
    assert ([x] + ws)[0] == x && ([x] + ws)[1..] == ws;
  }

  /** Removing leading whitespace from `s[j..]` leaves its words alone. */
  lemma {:induction false} WordsSkipSpaces(s: string, j: nat, e: nat)
    requires j <= e <= |s|
    requires SpacesBetween(s, j, e)
    ensures SameWords(s, j, e)
    decreases e - j
  {
    if j < e {
      assert s[j..][0] == s[j] && s[j..][1..] == s[j + 1..];
      WordsSkipSpaces(s, j + 1, e);
    }
  }

  /** A stretch without class characters comes through collapsing unchanged. */
  lemma {:induction false} PlainRun(s: string, i: nat, j: nat, p: char -> bool, rep: char)
    requires i <= j <= |s|
    requires forall k :: i <= k < j ==> !p(s[k])
    ensures ReplaceRuns(s[i..], p, rep) == s[i..j] + ReplaceRuns(s[j..], p, rep)
    decreases j - i
  {
    if i < j {
      PlainFirst(s, i, p, rep);
      PlainRun(s, i + 1, j, p, rep);
      assert s[i..j] == [s[i]] + s[i + 1..j];
      Assoc([s[i]], s[i + 1..j], ReplaceRuns(s[j..], p, rep));
    } else {
      assert s[i..j] == [];
    }
  }

  lemma PlainFirst(s: string, i: nat, p: char -> bool, rep: char)
    requires i < |s| && !p(s[i])
    ensures ReplaceRuns(s[i..], p, rep) == [s[i]] + ReplaceRuns(s[i + 1..], p, rep)
  {
    assert s[i..][0] == s[i] && s[i..][1..] == s[i + 1..];
  }

  lemma Assoc<T>(a: seq<T>, b: seq<T>, c: seq<T>)
    ensures (a + b) + c == a + (b + c)
  {
  }

  /** `" "` if `s` ends in whitespace, else nothing. */
  function TrailingSpace(s: string): string {
    if s != [] && IsSpace(s[|s| - 1]) then " " else ""
  }

  /** Collapsing whitespace runs gives the words joined by single spaces, then one more if `s` ends in whitespace. */
  predicate CollapsesToWords(s: string) {
    ReplaceRuns(s, IsSpace, ' ') == JoinSpace(Words(s)) + TrailingSpace(s)
  }

  /**
   * On a string that does not start with whitespace, collapsing whitespace runs gives
   * the words joined by single spaces, and one more space if the string ends in whitespace.
   */
  lemma {:induction false} CollapseWords(s: string)
    requires s == [] || !IsSpace(s[0])
    ensures CollapsesToWords(s)
    decreases |s|
  {
    if s != [] {
      var j := FirstWord(s);
      if j == |s| {
        LastWord(s, j);
      } else {
        var e := Gap(s, j);
        if e == |s| {
          FinalSpaces(s, j, e);
        } else {
          assert s[e..][0] == s[e];
          CollapseWords(s[e..]);
          WordThenRest(s, j, e);
        }
      }
    }
  }

  /** `s[..j]` is the first word of `s`, and collapsing keeps it as it is. */
  predicate FirstWordAt(s: string, j: nat) {
    0 < j <= |s|
    && Words(s) == [s[..j]] + Words(s[j..])
    && ReplaceRuns(s, IsSpace, ' ') == s[..j] + ReplaceRuns(s[j..], IsSpace, ' ')
    && (forall k :: 0 <= k < j ==> !IsSpace(s[k]))
    && (j < |s| ==> IsSpace(s[j]))
  }

  /** `s[j..e]` is a whole whitespace run: it holds no word, and collapsing makes it one space. */
  predicate GapAt(s: string, j: nat, e: nat) {
    j < e <= |s| && SameWords(s, j, e) && OneSpace(s, j, e) && SpacesBetween(s, j, e)
  }

  predicate SameWords(s: string, j: nat, e: nat)
    requires j <= e <= |s|
  {
    Words(s[j..]) == Words(s[e..])
  }

  predicate OneSpace(s: string, j: nat, e: nat)
    requires j <= e <= |s|
  {
    ReplaceRuns(s[j..], IsSpace, ' ') == " " + ReplaceRuns(s[e..], IsSpace, ' ')
  }

  predicate SpacesBetween(s: string, j: nat, e: nat)
    requires j <= e <= |s|
  {
    forall k :: j <= k < e ==> IsSpace(s[k])
  }

  /** The first word of `s` and what collapsing does to it. */
  lemma FirstWord(s: string) returns (j: nat)
    requires s != [] && !IsSpace(s[0])
    ensures FirstWordAt(s, j)
  {
    j := SkipWhile(s, 0, IsWordChar);
    PlainRun(s, 0, j, IsSpace, ' ');
    assert s[0..] == s && s[0..j] == s[..j];
  }

  /** The whitespace run that follows the first word. */
  lemma Gap(s: string, j: nat) returns (e: nat)
    requires j < |s| && IsSpace(s[j])
    ensures GapAt(s, j, e)
    ensures e < |s| ==> !IsSpace(s[e])
  {
    var d := RunLength(s, j, IsSpace);
    e := j + d;
    SpaceRun(s, j, d);
    WordsSkipSpaces(s, j, e);
    SpaceRunCollapses(s, j, e);
  }

  lemma SpaceRun(s: string, j: nat, d: nat)
    requires j < |s| && RunAt(s, j, d, IsSpace)
    ensures j + d <= |s| && SpacesBetween(s, j, j + d)
    ensures j + d < |s| ==> !IsSpace(s[j + d])
  {
  }

  lemma LastWord(s: string, j: nat)
    requires FirstWordAt(s, j) && j == |s|
    ensures CollapsesToWords(s)
  {
    assert s[..j] == s && s[j..] == [];
    assert Words(s) == [s];
    assert TrailingSpace(s) == [];
  }

  lemma FinalSpaces(s: string, j: nat, e: nat)
    requires FirstWordAt(s, j) && GapAt(s, j, e) && e == |s|
    ensures CollapsesToWords(s)
  {
    assert s[e..] == [];
    assert Words(s) == [s[..j]];
    assert IsSpace(s[|s| - 1]);
  }

  lemma SpaceRunCollapses(s: string, j: nat, e: nat)
    requires j < e <= |s| && RunAt(s, j, e - j, IsSpace)
    ensures OneSpace(s, j, e)
  {
    RunHead(s, j, e - j, e, IsSpace, ' ');
  }

  /** The step of `CollapseWords` where more words follow the first. */
  lemma WordThenRest(s: string, j: nat, e: nat)
    requires FirstWordAt(s, j) && GapAt(s, j, e) && e < |s| && !IsSpace(s[e])
    requires CollapsesToWords(s[e..])
    ensures CollapsesToWords(s)
  {
    var w, rest := s[..j], Words(s[e..]);
    var jr, tr := JoinSpace(rest), TrailingSpace(s[e..]);
    assert s[e..][0] == s[e];
    assert rest != [];
    JoinCons(w, rest);
    assert tr == TrailingSpace(s) by {
      assert s[e..][|s[e..]| - 1] == s[|s| - 1];
    }
    Assoc(" ", jr, tr);
    Assoc(w, " " + jr, tr);
    Assoc(w, " ", jr);
  }

  lemma StripLeadingSpace(c: char, x: string)
    requires IsSpace(c)
    ensures Strip([c] + x) == Strip(x)
  {
    assert ([c] + x)[0] == c && ([c] + x)[1..] == x;
  }

  lemma StripTrailingSpace(x: string)
    requires x == [] || !IsSpace(x[0])
    ensures Strip(x + " ") == Strip(x)
  {
    var y := x + " ";
    assert y[|y| - 1] == ' ' && y[..|y| - 1] == x;
    if x != [] {
      assert y[0] == x[0];
    }
  }

  /** `re.sub(r"\s+", " ", s).strip()` is `" ".join(s.split())`. */
  lemma CollapseSpacesIsJoin(s: string)
    ensures Strip(ReplaceRuns(s, IsSpace, ' ')) == JoinSpace(Words(s))
  {
    if s != [] && IsSpace(s[0]) {
      var d := RunLength(s, 0, IsSpace);
      assert s[0..] == s;
      SpaceRunCollapses(s, 0, d);
      assert OneSpace(s, 0, d);
      StripLeadingSpace(' ', ReplaceRuns(s[d..], IsSpace, ' '));
      WordsSkipSpaces(s, 0, d);
      if d < |s| {
        assert s[d..][0] == s[d];
      }
      CollapseNoLead(s[d..]);
    } else {
      CollapseNoLead(s);
    }
  }

  lemma CollapseNoLead(s: string)
    requires s == [] || !IsSpace(s[0])
    ensures Strip(ReplaceRuns(s, IsSpace, ' ')) == JoinSpace(Words(s))
  {
    var j := JoinSpace(Words(s));
    CollapseWords(s);
    JoinStripped(Words(s));
    StrippedIsFixed(j);
    if TrailingSpace(s) != [] {
      StripTrailingSpace(j);
    } else {
      assert j + TrailingSpace(s) == j;
    }
  }

  // ---------------------------------------------------------------------------------
  // The substring test `w in s`

  predicate OccursAt(s: string, w: string, i: int) {
    0 <= i && i + |w| <= |s| && s[i..i + |w|] == w
  }

  /** Python's `w in s` for strings. */
  predicate Contains(s: string, w: string)
    decreases |s|
  {
    if |w| > |s| then false
    else if s[..|w|] == w then true
    else Contains(s[1..], w)
  }

  /** `Contains` is exactly "`w` occurs at some index of `s`". */
  lemma {:induction false} ContainsIff(s: string, w: string)
    ensures Contains(s, w) <==> exists i :: OccursAt(s, w, i)
    decreases |s|
  {
    if |w| > |s| {
      // no index fits
    } else if s[..|w|] == w {
      assert OccursAt(s, w, 0);
    } else {
      ContainsIff(s[1..], w);
      if exists i :: OccursAt(s[1..], w, i) {
        var i :| OccursAt(s[1..], w, i);
        assert s[1..][i..i + |w|] == s[i + 1..i + 1 + |w|];
        assert OccursAt(s, w, i + 1);
      }
      if exists i :: OccursAt(s, w, i) {
        var i :| OccursAt(s, w, i);
        assert i != 0;
        assert s[1..][i - 1..i - 1 + |w|] == s[i..i + |w|];
        assert OccursAt(s[1..], w, i - 1);
      }
    }
  }

  /** A string with no upper-case letter contains no word that has one. */
  lemma NoUpperExcludes(s: string, w: string, j: nat)
    requires NoUpper(s)
    requires j < |w| && IsUpper(w[j])
    ensures !Contains(s, w)
  {
    ContainsIff(s, w);
    forall i | 0 <= i && i + |w| <= |s| ensures !OccursAt(s, w, i) {
      assert s[i..i + |w|][j] == s[i + j];
    }
  }

  lemma LowerHasNoUpper(s: string)
    ensures |Lower(s)| == |s| && NoUpper(Lower(s))
  {
  }

  /** Substring is transitive: whatever occurs in `w` occurs in every string containing `w`. */
  lemma ContainsTransitive(s: string, w: string, v: string)
    requires Contains(s, w) && Contains(w, v)
    ensures Contains(s, v)
  {
    ContainsIff(s, w);
    ContainsIff(w, v);
    ContainsIff(s, v);
    var i :| OccursAt(s, w, i);
    var j :| OccursAt(w, v, j);
    assert w == s[i..i + |w|];
    var a := s[i + j..i + j + |v|];
    forall k | 0 <= k < |v| ensures a[k] == v[k] {
      assert a[k] == s[i + (j + k)];
      assert w[j + k] == s[i..i + |w|][j + k];
    }
    assert OccursAt(s, v, i + j);
  }

  // ---------------------------------------------------------------------------------
  // str.replace(pat, sub)

  /** `s.replace(pat, sub)`: every non-overlapping occurrence of `pat`, left to right, becomes `sub`. */
  function Replace(s: string, pat: string, sub: string): string
    requires |pat| > 0
    decreases |s|
  {
    if |s| < |pat| then s
    else if s[..|pat|] == pat then sub + Replace(s[|pat|..], pat, sub)
    else [s[0]] + Replace(s[1..], pat, sub)
  }

  /** `replace` of a one-character key, on a string that starts with a character. */
  lemma ReplaceCharHead(c: char, y: string, pat: string, sub: string)
    requires |pat| == 1
    ensures Replace([c] + y, pat, sub) == (if c == pat[0] then sub else [c]) + Replace(y, pat, sub)
  {
    assert ([c] + y)[..1] == [c] && ([c] + y)[1..] == y;
  }

  /** Replacing a string that does not occur changes nothing. */
  lemma {:induction false} ReplaceAbsent(s: string, pat: string, sub: string)
    requires |pat| > 0 && !Contains(s, pat)
    ensures Replace(s, pat, sub) == s
    decreases |s|
  {
    if |s| >= |pat| {
      ReplaceAbsent(s[1..], pat, sub);
      assert [s[0]] + s[1..] == s;
    }
  }

  /** A replacement at least as long as what it replaces never shortens the string. */
  lemma {:induction false} ReplaceLength(s: string, pat: string, sub: string)
    requires 0 < |pat| <= |sub|
    ensures |Replace(s, pat, sub)| >= |s|
    decreases |s|
  {
    if |s| >= |pat| {
      if s[..|pat|] == pat {
        ReplaceLength(s[|pat|..], pat, sub);
      } else {
        ReplaceLength(s[1..], pat, sub);
      }
    }
  }

  /** Replacing by a string without upper-case letters keeps a string free of them. */
  lemma {:induction false} ReplaceNoUpper(s: string, pat: string, sub: string)
    requires |pat| > 0 && NoUpper(s) && NoUpper(sub)
    ensures NoUpper(Replace(s, pat, sub))
    decreases |s|
  {
    if |s| >= |pat| {
      if s[..|pat|] == pat {
        ReplaceNoUpper(s[|pat|..], pat, sub);
      } else {
        ReplaceNoUpper(s[1..], pat, sub);
      }
    }
  }

  /** A non-empty replacement keeps a non-empty string non-empty. */
  lemma ReplaceNonEmpty(s: string, pat: string, sub: string)
    requires |pat| > 0 && |sub| > 0 && s != []
    ensures Replace(s, pat, sub) != []
  {
  }

  predicate KeysNonEmpty(table: seq<(string, string)>) {
    forall k :: 0 <= k < |table| ==> |table[k].0| > 0
  }

  /** The replacements of `table` applied one after another, in table order. */
  function ReplaceAll(s: string, table: seq<(string, string)>): string
    requires KeysNonEmpty(table)
    decreases |table|
  {
    if table == [] then s
    else
      var last := table[|table| - 1];
      Replace(ReplaceAll(s, table[..|table| - 1]), last.0, last.1)
  }

  /** Applying the first `k + 1` entries is applying the first `k` and then entry `k`. */
  lemma ReplaceAllStep(s: string, table: seq<(string, string)>, k: nat)
    requires KeysNonEmpty(table) && k < |table|
    ensures ReplaceAll(s, table[..k + 1]) == Replace(ReplaceAll(s, table[..k]), table[k].0, table[k].1)
  {
    assert table[..k + 1][..k] == table[..k];
  }

  /** A table none of whose keys occurs in `s` leaves `s` unchanged. */
  lemma {:induction false} ReplaceAllAbsent(s: string, table: seq<(string, string)>)
    requires KeysNonEmpty(table)
    requires forall k :: 0 <= k < |table| ==> !Contains(s, table[k].0)
    ensures ReplaceAll(s, table) == s
    decreases |table|
  {
    if table != [] {
      var init := table[..|table| - 1];
      ReplaceAllAbsent(s, init);
      ReplaceAbsent(s, table[|table| - 1].0, table[|table| - 1].1);
    }
  }

  /** Non-empty replacements keep a non-empty string non-empty. */
  lemma {:induction false} ReplaceAllNonEmpty(s: string, table: seq<(string, string)>)
    requires KeysNonEmpty(table) && s != []
    requires forall k :: 0 <= k < |table| ==> table[k].1 != []
    ensures ReplaceAll(s, table) != []
    decreases |table|
  {
    if table != [] {
      var init := table[..|table| - 1];
      ReplaceAllNonEmpty(s, init);
      ReplaceNonEmpty(ReplaceAll(s, init), table[|table| - 1].0, table[|table| - 1].1);
    }
  }

  // ---------------------------------------------------------------------------------
  // re.sub(r'<class>+', rep, s)

  /**
   * `re.sub('[class]+', rep, s)`: every maximal run of characters satisfying `p`
   * is replaced by the single character `rep`. Every character of the result is
   * `rep` or a character of `s` outside the class; the result is empty exactly when
   * `s` is, and starts with `rep` exactly when `s` starts with a class character.
   */
  function ReplaceRuns(s: string, p: char -> bool, rep: char): (r: string)
    ensures |r| <= |s|
    ensures r == [] <==> s == []
    ensures forall k :: 0 <= k < |r| ==> r[k] == rep || (!p(r[k]) && r[k] in s)
    ensures s != [] ==> r[0] == (if p(s[0]) then rep else s[0])
    decreases |s|
  {
    if s == [] then []
    else if p(s[0]) then
      var j := SkipWhile(s, 0, p);
      var rest := ReplaceRuns(s[j..], p, rep);
      assert forall c :: c in s[j..] ==> c in s;
      [rep] + rest
    else
      var rest := ReplaceRuns(s[1..], p, rep);
      assert forall c :: c in s[1..] ==> c in s;
      [s[0]] + rest
  }

  /**
   * Collapsing read position by position from `i`: a character outside the class is
   * kept, a class character that begins a run becomes `rep`, and the rest of the run
   * is dropped.
   */
  function CollapseFrom(s: string, i: nat, p: char -> bool, rep: char): string
    decreases |s| - i
  {
    if i >= |s| then []
    else
      (if !p(s[i]) then [s[i]] else if i == 0 || !p(s[i - 1]) then [rep] else [])
      + CollapseFrom(s, i + 1, p, rep)
  }

  /** `re.sub('[..]+', rep, s)` turns each run of the class into exactly one `rep` and keeps the rest. */
  lemma ReplaceRunsIsCollapse(s: string, p: char -> bool, rep: char)
    ensures ReplaceRuns(s, p, rep) == CollapseFrom(s, 0, p, rep)
  {
    ReplaceRunsFrom(s, 0, p, rep);
    assert s[0..] == s;
  }

  /** Collapsing the suffix from `i` agrees with the position-by-position reading. */
  predicate CollapsesFrom(s: string, i: nat, p: char -> bool, rep: char)
    requires i <= |s|
  {
    ReplaceRuns(s[i..], p, rep) == CollapseFrom(s, i, p, rep)
  }

  /** A maximal run of the class starts at `i` and is `d` characters long. */
  predicate RunAt(s: string, i: nat, d: nat, p: char -> bool)
    requires i < |s|
  {
    && d == SkipWhile(s[i..], 0, p)
    && 0 < d && i + d <= |s|
    && (forall k :: i <= k < i + d ==> p(s[k]))
    && (i + d < |s| ==> !p(s[i + d]))
  }

  lemma {:induction false} ReplaceRunsFrom(s: string, i: nat, p: char -> bool, rep: char)
    requires i <= |s|
    requires i == 0 || i == |s| || !p(s[i - 1]) || !p(s[i])
    ensures CollapsesFrom(s, i, p, rep)
    decreases |s| - i
  {
    if i < |s| {
      if p(s[i]) {
        var d := RunLength(s, i, p);
        ReplaceRunsFrom(s, i + d, p, rep);
        RunStep(s, i, p, rep, d);
      } else {
        ReplaceRunsFrom(s, i + 1, p, rep);
        PlainStep(s, i, p, rep);
      }
    }
  }

  lemma RunLength(s: string, i: nat, p: char -> bool) returns (d: nat)
    requires i < |s| && p(s[i])
    ensures RunAt(s, i, d, p)
  {
    var t := s[i..];
    assert t[0] == s[i];
    d := SkipWhile(t, 0, p);
    forall k | i <= k < i + d ensures p(s[k]) {
      assert t[k - i] == s[k];
    }
    if i + d < |s| {
      assert t[d] == s[i + d];
    }
  }

  lemma RunStep(s: string, i: nat, p: char -> bool, rep: char, d: nat)
    requires i < |s| && p(s[i]) && (i == 0 || !p(s[i - 1]))
    requires RunAt(s, i, d, p) && CollapsesFrom(s, i + d, p, rep)
    ensures CollapsesFrom(s, i, p, rep)
  {
    var e := i + d;
    assert CollapsesFrom(s, e, p, rep);
    RunHead(s, i, d, e, p, rep);
    RunStarts(s, i, p, rep);
    InsideRun(s, i, e, p, rep);
    assert ReplaceRuns(s[e..], p, rep) == CollapseFrom(s, e, p, rep);
  }

  /** A whole run `s[i..e]` at the front of `s[i..]` collapses into one `rep`. */
  lemma RunHead(s: string, i: nat, d: nat, e: nat, p: char -> bool, rep: char)
    requires i < |s| && RunAt(s, i, d, p) && e == i + d
    ensures ReplaceRuns(s[i..], p, rep) == [rep] + ReplaceRuns(s[e..], p, rep)
  {
    var t := s[i..];
    assert t[0] == s[i] && SkipWhile(t, 0, p) == d;
    assert ReplaceRuns(t, p, rep) == [rep] + ReplaceRuns(t[d..], p, rep);
    assert t[d..] == s[e..];
  }

  /** Read position by position, a run's first character gives `rep`. */
  lemma RunStarts(s: string, i: nat, p: char -> bool, rep: char)
    requires i < |s| && p(s[i]) && (i == 0 || !p(s[i - 1]))
    ensures CollapseFrom(s, i, p, rep) == [rep] + CollapseFrom(s, i + 1, p, rep)
  {
  }

  lemma PlainStep(s: string, i: nat, p: char -> bool, rep: char)
    requires i < |s| && !p(s[i])
    requires CollapsesFrom(s, i + 1, p, rep)
    ensures CollapsesFrom(s, i, p, rep)
  {
    assert s[i..][0] == s[i] && s[i..][1..] == s[i + 1..];
  }

  /** Inside a run nothing is emitted. */
  lemma {:induction false} InsideRun(s: string, i: nat, j: nat, p: char -> bool, rep: char)
    requires i < j <= |s|
    requires forall k :: i <= k < j ==> p(s[k])
    ensures CollapseFrom(s, i + 1, p, rep) == CollapseFrom(s, j, p, rep)
    decreases j - i
  {
    if i + 1 < j {
      InsideRun(s, i + 1, j, p, rep);
    }
  }

  /** Replacing runs of whitespace characters by one whitespace character removes whitespace only. */
  lemma {:induction false} ReplaceRunsNonSpace(s: string, p: char -> bool, rep: char)
    requires forall k :: 0 <= k < |s| && p(s[k]) ==> IsSpace(s[k])
    requires IsSpace(rep)
    ensures NonSpace(ReplaceRuns(s, p, rep)) == NonSpace(s)
    decreases |s|
  {
    if s != [] {
      var r := ReplaceRuns(s, p, rep);
      var j := if p(s[0]) then SkipWhile(s, 0, p) else 1;
      var head := if p(s[0]) then [rep] else [s[0]];
      assert r == head + ReplaceRuns(s[j..], p, rep);
      assert forall k :: 0 <= k < |s[j..]| ==> s[j..][k] == s[j + k];
      ReplaceRunsNonSpace(s[j..], p, rep);
      NonSpaceAppend(head, ReplaceRuns(s[j..], p, rep));
      NonSpaceSkipSpaces(s, 0, 0, if p(s[0]) then j else 0);
      if !p(s[0]) {
        assert s[0..] == s;
      }
    }
  }

  /** The characters of `s` outside the class `d`, in order. */
  function Without(s: string, d: char -> bool): string {
    if s == [] then [] else (if d(s[0]) then [] else [s[0]]) + Without(s[1..], d)
  }

  lemma {:induction false} WithoutAppend(a: string, b: string, d: char -> bool)
    ensures Without(a + b, d) == Without(a, d) + Without(b, d)
    decreases |a|
  {
    if a == [] {
      assert a + b == b;
    } else {
      assert (a + b)[0] == a[0] && (a + b)[1..] == a[1..] + b;
      WithoutAppend(a[1..], b, d);
    }
  }

  lemma {:induction false} WithoutNone(s: string, d: char -> bool)
    requires forall k :: 0 <= k < |s| ==> d(s[k])
    ensures Without(s, d) == []
    decreases |s|
  {
    if s != [] {
      assert forall k :: 0 <= k < |s[1..]| ==> s[1..][k] == s[k + 1];
      WithoutNone(s[1..], d);
    }
  }

  /** Where the class `d` is exactly the whitespace of `s`, what is left is the content. */
  lemma {:induction false} WithoutSpace(s: string, d: char -> bool)
    requires forall k :: 0 <= k < |s| ==> (d(s[k]) <==> IsSpace(s[k]))
    ensures Without(s, d) == NonSpace(s)
    decreases |s|
  {
    if s != [] {
      assert forall k :: 0 <= k < |s[1..]| ==> s[1..][k] == s[k + 1];
      WithoutSpace(s[1..], d);
    }
  }

  /** Every `q` character of `s` is in the class `d`. */
  predicate RunsDropped(s: string, q: char -> bool, d: char -> bool) {
    forall k :: 0 <= k < |s| && q(s[k]) ==> d(s[k])
  }

  /**
   * Replacing runs of `q` by `rep` keeps the characters outside `d`, in order, when
   * every `q` character and `rep` itself are in `d`.
   */
  lemma {:induction false} ReplaceRunsWithout(s: string, q: char -> bool, rep: char, d: char -> bool)
    requires RunsDropped(s, q, d) && d(rep)
    ensures Without(ReplaceRuns(s, q, rep), d) == Without(s, d)
    decreases |s|
  {
    if s != [] {
      var j := if q(s[0]) then SkipWhile(s, 0, q) else 1;
      RunsDroppedSuffix(s, q, d, j);
      ReplaceRunsWithout(s[j..], q, rep, d);
      if q(s[0]) {
        RunWithout(s, q, rep, d, j);
      } else {
        PlainWithout(s, q, rep, d);
      }
    }
  }

  lemma RunsDroppedSuffix(s: string, q: char -> bool, d: char -> bool, j: nat)
    requires j <= |s| && RunsDropped(s, q, d)
    ensures RunsDropped(s[j..], q, d)
  {
    assert forall k :: 0 <= k < |s[j..]| ==> s[j..][k] == s[j + k];
  }

  lemma WithoutSplit(s: string, j: nat, d: char -> bool)
    requires j <= |s|
    ensures Without(s, d) == Without(s[..j], d) + Without(s[j..], d)
  {
    TakeDrop(s, j);
    WithoutAppend(s[..j], s[j..], d);
  }

  lemma TakeDrop(s: string, j: nat)
    requires j <= |s|
    ensures s[..j] + s[j..] == s
  {
  }

  /** A leading run of `q` gives way to one `rep` of the class. */
  lemma RunWithout(s: string, q: char -> bool, rep: char, d: char -> bool, j: nat)
    requires s != [] && q(s[0]) && j == SkipWhile(s, 0, q)
    requires RunsDropped(s, q, d) && d(rep)
    requires Without(ReplaceRuns(s[j..], q, rep), d) == Without(s[j..], d)
    ensures Without(ReplaceRuns(s, q, rep), d) == Without(s, d)
  {
    var rest := ReplaceRuns(s[j..], q, rep);
    assert ReplaceRuns(s, q, rep) == [rep] + rest;
    WithoutAppend([rep], rest, d);
    WithoutSplit(s, j, d);
    assert forall k :: 0 <= k < j ==> s[..j][k] == s[k];
    WithoutNone(s[..j], d);
  }

  /** A leading character outside `q` is kept as it is. */
  lemma PlainWithout(s: string, q: char -> bool, rep: char, d: char -> bool)
    requires s != [] && !q(s[0])
    requires Without(ReplaceRuns(s[1..], q, rep), d) == Without(s[1..], d)
    ensures Without(ReplaceRuns(s, q, rep), d) == Without(s, d)
  {
    var rest := ReplaceRuns(s[1..], q, rep);
    assert ReplaceRuns(s, q, rep) == [s[0]] + rest;
    WithoutAppend([s[0]], rest, d);
  }

  /** Stripping keeps the characters outside `d` when `d` takes in the whitespace of `s`. */
  lemma WithoutStrip(s: string, d: char -> bool)
    requires RunsDropped(s, IsSpace, d)
    ensures Without(Strip(s), d) == Without(s, d)
  {
    StripIsSlice(s);
    SliceAmidSpaceWithout(s, StripStart(s), Strip(s), d);
  }

  lemma SliceAmidSpaceWithout(s: string, lo: nat, r: string, d: char -> bool)
    requires SliceAmidSpace(s, lo, r) && RunsDropped(s, IsSpace, d)
    ensures Without(r, d) == Without(s, d)
  {
    var hi := lo + |r|;
    ThreeParts(s, lo, hi);
    SpacesOutside(s, lo, r);
    WithoutAppend(s[..lo] + r, s[hi..], d);
    WithoutAppend(s[..lo], r, d);
    assert forall k :: 0 <= k < lo ==> s[..lo][k] == s[k];
    assert forall k :: 0 <= k < |s| - hi ==> s[hi..][k] == s[hi + k];
    WithoutNone(s[..lo], d);
    WithoutNone(s[hi..], d);
  }

  predicate NoAdjacent(s: string, p: char -> bool) {
    forall k :: 0 <= k < |s| - 1 ==> !(p(s[k]) && p(s[k + 1]))
  }

  /** When `rep` is itself in the class, the result has no two adjacent class characters. */
  lemma {:induction false} ReplaceRunsNoAdjacent(s: string, p: char -> bool, rep: char)
    requires p(rep)
    ensures NoAdjacent(ReplaceRuns(s, p, rep), p)
    decreases |s|
  {
    if s != [] {
      if p(s[0]) {
        var j := SkipWhile(s, 0, p);
        ReplaceRunsNoAdjacent(s[j..], p, rep);
      } else {
        ReplaceRunsNoAdjacent(s[1..], p, rep);
      }
    }
  }

  /** A string in which every class character is a lone `rep` is left unchanged. */
  lemma {:induction false} ReplaceRunsFixed(s: string, p: char -> bool, rep: char)
    requires forall k :: 0 <= k < |s| && p(s[k]) ==> s[k] == rep
    requires NoAdjacent(s, p)
    ensures ReplaceRuns(s, p, rep) == s
    decreases |s|
  {
    if s != [] {
      if p(s[0]) {
        assert SkipWhile(s, 1, p) == 1;
        assert SkipWhile(s, 0, p) == 1;
      }
      forall k | 0 <= k < |s[1..]| - 1 ensures !(p(s[1..][k]) && p(s[1..][k + 1])) {
        assert s[1..][k] == s[k + 1] && s[1..][k + 1] == s[k + 2];
      }
      ReplaceRunsFixed(s[1..], p, rep);
      assert [s[0]] + s[1..] == s;
    }
  }

  /** A slice of a string with no two adjacent class characters has none either. */
  lemma NoAdjacentSlice(s: string, p: char -> bool, i: nat, j: nat)
    requires i <= j <= |s| && NoAdjacent(s, p)
    ensures NoAdjacent(s[i..j], p)
  {
    forall k | 0 <= k < j - i - 1 ensures !(p(s[i..j][k]) && p(s[i..j][k + 1])) {
      assert s[i..j][k] == s[i + k] && s[i..j][k + 1] == s[i + k + 1];
    }
  }

  /** Stripping keeps a string free of adjacent whitespace. */
  lemma StripNoAdjacent(s: string)
    requires NoAdjacent(s, IsSpace)
    ensures NoAdjacent(Strip(s), IsSpace)
  {
    var lo, r := StripStart(s), Strip(s);
    StripIsSlice(s);
    NoAdjacentSlice(s, IsSpace, lo, lo + |r|);
  }
}
