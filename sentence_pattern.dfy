/**
 * The clause splitter's `SPLIT_SENT_RE = (?<=[\.\?\!])\s+` and `re.split` over it: the
 * text is cut at every whitespace run that follows `.`, `?` or `!`; the run is dropped
 * and the punctuation stays on the fragment to its left.
 */
module SentencePattern {
  import opened Strings

  /** `[\.\?\!]` */
  predicate IsTerminal(c: char) {
    c == '.' || c == '?' || c == '!'
  }

  /** The pattern matches at `i`: the lookbehind sees punctuation and `\s+` sees whitespace. */
  predicate CutAt(s: string, i: int) {
    0 < i < |s| && IsTerminal(s[i - 1]) && IsSpace(s[i])
  }

  /**
   * `re.split` from `pos`, the current fragment having begun at `start`: at a cut, the
   * fragment ends and the next begins after the whole whitespace run (`\s+` is greedy
   * and the search resumes where the match ended).
   */
  function SplitFrom(s: string, start: nat, pos: nat): seq<string>
    requires start <= pos <= |s|
    decreases |s| - pos
  {
    if pos == |s| then [s[start..]]
    else if CutAt(s, pos) then
      var e := SkipWhile(s, pos, IsSpace);
      [s[start..pos]] + SplitFrom(s, e, e)
    else SplitFrom(s, start, pos + 1)
  }

  /** `SPLIT_SENT_RE.split(s)` */
  function SplitSentences(s: string): seq<string> {
    SplitFrom(s, 0, 0)
  }

  /** A fragment: non-empty, stripped, and with no cut inside it. */
  predicate IsSentence(f: string) {
    f != [] && IsStripped(f) && NoCutIn(f)
  }

  /** No cut lies inside `f`. */
  predicate NoCutIn(f: string) {
    forall i :: 0 < i < |f| ==> !CutAt(f, i)
  }

  /** Each fragment is a sentence, and every fragment but the last ends in punctuation. */
  predicate Sentences(r: seq<string>) {
    r != [] && IsSentence(r[0])
    && (|r| == 1 || (IsTerminal(r[0][|r[0]| - 1]) && Sentences(r[1..])))
  }

  /** The fragments hold the non-whitespace characters of the text from `start`, in order. */
  lemma {:induction false} SplitFromKeepsText(s: string, start: nat, pos: nat)
    requires start <= pos <= |s|
    ensures NonSpace(Concat(SplitFrom(s, start, pos))) == NonSpace(s[start..])
    decreases |s| - pos
  {
    var r := SplitFrom(s, start, pos);
    if pos == |s| {
      ConcatCons(s[start..], []);
      assert s[start..] + [] == s[start..];
    } else if CutAt(s, pos) {
      var e := SkipWhile(s, pos, IsSpace);
      var rest := SplitFrom(s, e, e);
      SplitFromKeepsText(s, e, e);
      ConcatCons(s[start..pos], rest);
      NonSpaceAppend(s[start..pos], Concat(rest));
      NonSpaceSkipSpaces(s, start, pos, e);
    } else {
      SplitFromKeepsText(s, start, pos + 1);
    }
  }

  /** A cut inside a slice is a cut of the whole text. */
  lemma CutInSlice(s: string, lo: nat, hi: nat, i: int)
    requires lo <= hi <= |s| && CutAt(s[lo..hi], i)
    ensures lo < lo + i < hi && CutAt(s, lo + i)
  {
    assert s[lo..hi][i - 1] == s[lo + i - 1] && s[lo..hi][i] == s[lo + i];
  }

  /**
   * When the text from `start` begins and ends with non-whitespace and no cut lies
   * between `start` and `pos`, the fragments are sentences.
   */
  lemma {:induction false} SplitFromShape(s: string, start: nat, pos: nat)
    requires start <= pos <= |s| && start < |s|
    requires !IsSpace(s[start]) && !IsSpace(s[|s| - 1])
    requires forall i :: start < i < pos ==> !CutAt(s, i)
    ensures Sentences(SplitFrom(s, start, pos))
    decreases |s| - pos
  {
    var r := SplitFrom(s, start, pos);
    if pos == |s| {
      var f := s[start..];
      assert f[0] == s[start] && f[|f| - 1] == s[|s| - 1];
      forall i ensures !CutAt(f, i) {
        if CutAt(f, i) {
          CutInSlice(s, start, |s|, i);
        }
      }
    } else if CutAt(s, pos) {
      var e := SkipWhile(s, pos, IsSpace);
      var f := s[start..pos];
      assert start < pos;
      assert f[0] == s[start] && f[|f| - 1] == s[pos - 1];
      forall i ensures !CutAt(f, i) {
        if CutAt(f, i) {
          CutInSlice(s, start, pos, i);
        }
      }
      assert e < |s|;
      SplitFromShape(s, e, e);
      assert r[1..] == SplitFrom(s, e, e);
    } else {
      SplitFromShape(s, start, pos + 1);
    }
  }

  /**
   * A stripped, non-empty section splits into sentences whose non-whitespace
   * characters are exactly the section's, cut at its cuts and nowhere else: nothing but
   * the whitespace at the cuts is lost.
   */
  lemma SplitSentencesSound(s: string)
    requires s != [] && IsStripped(s)
    ensures Sentences(SplitSentences(s))
    ensures NonSpace(Concat(SplitSentences(s))) == NonSpace(s)
    ensures exists gaps :: CutInto(s, SplitSentences(s), gaps)
  {
    SplitFromShape(s, 0, 0);
    SplitFromKeepsText(s, 0, 0);
    var gaps := SplitSentencesCuts(s);
  }

  /** Text with no punctuation followed by whitespace is not cut at all. */
  lemma {:induction false} NoCutKeepsWhole(s: string, start: nat, pos: nat)
    requires start <= pos <= |s|
    requires forall i :: pos <= i < |s| ==> !CutAt(s, i)
    ensures SplitFrom(s, start, pos) == [s[start..]]
    decreases |s| - pos
  {
    if pos < |s| {
      NoCutKeepsWhole(s, start, pos + 1);
    }
  }

  // ---------------------------------------------------------------------------------
  // Where the cuts fall

  /** Fragments with the whitespace runs between them put back: `r[0] + gaps[0] + r[1] + ...`. */
  function Interleave(r: seq<string>, gaps: seq<string>): string
    requires |r| == |gaps| + 1
    decreases |gaps|
  {
    if gaps == [] then r[0] else r[0] + gaps[0] + Interleave(r[1..], gaps[1..])
  }

  /**
   * Between fragments `k` and `k + 1`: the first ends in punctuation, the run `gaps[k]`
   * is non-empty whitespace, and the run is whole, since the next fragment does not
   * start with whitespace.
   */
  predicate Junction(r: seq<string>, gaps: seq<string>, k: nat)
    requires |r| == |gaps| + 1 && k < |gaps|
  {
    r[k] != [] && IsTerminal(r[k][|r[k]| - 1])
    && gaps[k] != [] && AllSpace(gaps[k])
    && (r[k + 1] == [] || !IsSpace(r[k + 1][0]))
  }

  /**
   * `t` cut at whitespace after `.`, `?` or `!`: the fragments `r` and the dropped runs
   * `gaps` alternate to rebuild `t`, every run is a whole run after punctuation, and no
   * fragment holds a cut.
   */
  predicate CutInto(t: string, r: seq<string>, gaps: seq<string>) {
    |r| == |gaps| + 1 && Interleave(r, gaps) == t
    && (forall k :: 0 <= k < |gaps| ==> Junction(r, gaps, k))
    && (forall k :: 0 <= k < |r| ==> NoCutIn(r[k]))
  }

  /** A slice of `s` between `lo` and `hi` holds no cut when `s` has none strictly inside. */
  lemma FragmentNoCut(s: string, lo: nat, hi: nat)
    requires lo <= hi <= |s|
    requires forall i :: lo < i < hi ==> !CutAt(s, i)
    ensures NoCutIn(s[lo..hi])
  {
    forall i | 0 < i < hi - lo ensures !CutAt(s[lo..hi], i) {
      if CutAt(s[lo..hi], i) {
        CutInSlice(s, lo, hi, i);
      }
    }
  }

  /** A fragment and a whole run in front of a cut text give a cut text. */
  lemma CutIntoCons(f: string, g: string, t: string, r: seq<string>, gaps: seq<string>)
    requires CutInto(t, r, gaps)
    requires f != [] && IsTerminal(f[|f| - 1]) && NoCutIn(f)
    requires g != [] && AllSpace(g) && (r[0] == [] || !IsSpace(r[0][0]))
    ensures CutInto(f + g + t, [f] + r, [g] + gaps)
  {
    var r2, g2 := [f] + r, [g] + gaps;
    assert r2[1..] == r && g2[1..] == gaps;
    assert Junction(r2, g2, 0);
    forall k | 0 < k < |g2| ensures Junction(r2, g2, k) {
      assert Junction(r, gaps, k - 1);
      assert r2[k] == r[k - 1] && r2[k + 1] == r[k] && g2[k] == gaps[k - 1];
    }
    forall k | 0 < k < |r2| ensures NoCutIn(r2[k]) {
      assert r2[k] == r[k - 1];
    }
  }

  /** The run dropped at the cut `pos`, and the fragment before it. */
  lemma CutRun(s: string, start: nat, pos: nat, e: nat)
    requires start <= pos < |s| && CutAt(s, pos) && e == SkipWhile(s, pos, IsSpace)
    requires start < pos || start == 0 || IsSpace(s[start - 1])
    ensures pos < e && start < pos
    ensures var f, g := s[start..pos], s[pos..e];
      f != [] && IsTerminal(f[|f| - 1]) && g != [] && AllSpace(g) && s[start..] == f + g + s[e..]
  {
    var f, g := s[start..pos], s[pos..e];
    assert f[|f| - 1] == s[pos - 1];
    assert forall k :: 0 <= k < |g| ==> g[k] == s[pos + k];
    assert s[start..] == f + g + s[e..];
  }

  /** The split from `pos` cuts `s[start..]` by `gaps`, and its first fragment begins at `start`. */
  predicate SplitCuts(s: string, start: nat, pos: nat, gaps: seq<string>)
    requires start <= pos <= |s|
  {
    var r := SplitFrom(s, start, pos);
    CutInto(s[start..], r, gaps) && (r[0] != [] ==> start < |s| && r[0][0] == s[start])
  }

  /**
   * `re.split` from `pos` cuts `s[start..]` at its cuts, given that `start` begins the
   * text or follows whitespace and no cut lies between `start` and `pos`.
   */
  lemma {:induction false} SplitFromCuts(s: string, start: nat, pos: nat) returns (gaps: seq<string>)
    requires start <= pos <= |s| && (start == 0 || IsSpace(s[start - 1]))
    requires forall i :: start < i < pos ==> !CutAt(s, i)
    ensures SplitCuts(s, start, pos, gaps)
    decreases |s| - pos
  {
    if pos == |s| {
      gaps := LastCut(s, start);
    } else if CutAt(s, pos) {
      var e := SkipWhile(s, pos, IsSpace);
      var gs := SplitFromCuts(s, e, e);
      gaps := CutStep(s, start, pos, e, gs);
    } else {
      gaps := SplitFromCuts(s, start, pos + 1);
    }
  }

  lemma LastCut(s: string, start: nat) returns (gaps: seq<string>)
    requires start <= |s| && forall i :: start < i < |s| ==> !CutAt(s, i)
    ensures SplitCuts(s, start, |s|, gaps)
  {
    gaps := [];
    FragmentNoCut(s, start, |s|);
    assert s[start..|s|] == s[start..];
  }

  lemma CutStep(s: string, start: nat, pos: nat, e: nat, gs: seq<string>) returns (gaps: seq<string>)
    requires start <= pos < |s| && (start == 0 || IsSpace(s[start - 1]))
    requires forall i :: start < i < pos ==> !CutAt(s, i)
    requires CutAt(s, pos) && e == SkipWhile(s, pos, IsSpace) && SplitCuts(s, e, e, gs)
    ensures SplitCuts(s, start, pos, gaps)
  {
    var rest := SplitFrom(s, e, e);
    var f, g := s[start..pos], s[pos..e];
    CutRun(s, start, pos, e);
    FragmentNoCut(s, start, pos);
    CutIntoCons(f, g, s[e..], rest, gs);
    gaps := [g] + gs;
    assert SplitFrom(s, start, pos) == [f] + rest;
    assert f[0] == s[start];
  }

  /** `SPLIT_SENT_RE.split(s)` cuts `s` at its cuts and nowhere else. */
  lemma SplitSentencesCuts(s: string) returns (gaps: seq<string>)
    ensures CutInto(s, SplitSentences(s), gaps)
  {
    gaps := SplitFromCuts(s, 0, 0);
    assert s[0..] == s;
  }

  /** The first fragment is a prefix of the text; before a run it ends at a cut of the text. */
  lemma FirstFragment(t: string, r: seq<string>, gaps: seq<string>)
    requires CutInto(t, r, gaps)
    ensures |r[0]| <= |t| && t[..|r[0]|] == r[0]
    ensures gaps == [] ==> t == r[0]
    ensures gaps != [] ==>
      (0 < |r[0]| < |t| && CutAt(t, |r[0]|) && t[|r[0]|..] == gaps[0] + Interleave(r[1..], gaps[1..]))
  {
    if gaps != [] {
      var f, g, i := r[0], gaps[0], Interleave(r[1..], gaps[1..]);
      assert Junction(r, gaps, 0);
      assert t == f + (g + i);
      assert t[|f| - 1] == f[|f| - 1] && t[|f|] == g[0];
      assert t[..|f|] == f && t[|f|..] == g + i;
    }
  }

  /** What follows the first run is cut by the remaining fragments and runs. */
  lemma CutIntoTail(t: string, r: seq<string>, gaps: seq<string>)
    requires CutInto(t, r, gaps) && gaps != []
    ensures CutInto(Interleave(r[1..], gaps[1..]), r[1..], gaps[1..])
  {
    var r2, g2 := r[1..], gaps[1..];
    forall k | 0 <= k < |g2| ensures Junction(r2, g2, k) {
      assert Junction(r, gaps, k + 1);
      assert r2[k] == r[k + 1] && r2[k + 1] == r[k + 2] && g2[k] == gaps[k + 1];
    }
    forall k | 0 <= k < |r2| ensures NoCutIn(r2[k]) {
      assert r2[k] == r[k + 1];
    }
  }

  /** A cut text starts with whitespace only if its first fragment does. */
  lemma CutHead(t: string, r: seq<string>, gaps: seq<string>)
    requires CutInto(t, r, gaps) && (r[0] == [] || !IsSpace(r[0][0]))
    ensures t == [] || !IsSpace(t[0])
  {
    FirstFragment(t, r, gaps);
    if gaps != [] {
      assert Junction(r, gaps, 0);
      assert t[0] == r[0][0];
    }
  }

  /** A text that has no cut before `|f|` does not cut its prefix `f`. */
  lemma NoCutPrefix(t: string, f: string)
    requires |f| <= |t| && t[..|f|] == f && NoCutIn(f)
    ensures forall i :: 0 < i < |f| ==> !CutAt(t, i)
  {
    forall i | 0 < i < |f| ensures !CutAt(t, i) {
      assert !CutAt(f, i);
      assert f[i - 1] == t[i - 1] && f[i] == t[i];
    }
  }

  /** Two cuttings of one text start with the same fragment, and both or neither go on. */
  lemma FirstFragmentsAgree(t: string, r1: seq<string>, g1: seq<string>, r2: seq<string>, g2: seq<string>)
    requires CutInto(t, r1, g1) && CutInto(t, r2, g2)
    ensures r1[0] == r2[0] && (g1 == [] <==> g2 == [])
  {
    FirstFragment(t, r1, g1);
    FirstFragment(t, r2, g2);
    NoCutPrefix(t, r1[0]);
    NoCutPrefix(t, r2[0]);
    assert |r1[0]| == |r2[0]|;
  }

  /** A whole whitespace run in front of a text that does not start with whitespace is determined. */
  lemma SpaceRunUnique(a1: string, b1: string, a2: string, b2: string)
    requires a1 + b1 == a2 + b2
    requires AllSpace(a1) && (b1 == [] || !IsSpace(b1[0]))
    requires AllSpace(a2) && (b2 == [] || !IsSpace(b2[0]))
    ensures a1 == a2 && b1 == b2
  {
    var t := a1 + b1;
    assert |a1| < |t| ==> t[|a1|] == b1[0];
    assert |a2| < |t| ==> t[|a2|] == b2[0];
    assert forall k :: 0 <= k < |a1| ==> t[k] == a1[k];
    assert forall k :: 0 <= k < |a2| ==> t[k] == a2[k];
    assert |a1| == |a2|;
    assert a1 == t[..|a1|] && a2 == t[..|a2|];
    assert b1 == t[|a1|..] && b2 == t[|a2|..];
  }

  /** A text is cut into fragments and runs in one way only. */
  lemma {:induction false} CutIntoUnique(t: string, r1: seq<string>, g1: seq<string>, r2: seq<string>, g2: seq<string>)
    requires CutInto(t, r1, g1) && CutInto(t, r2, g2)
    ensures r1 == r2 && g1 == g2
    decreases |g1|
  {
    FirstFragmentsAgree(t, r1, g1, r2, g2);
    if g1 != [] {
      var i1, i2 := Interleave(r1[1..], g1[1..]), Interleave(r2[1..], g2[1..]);
      FirstFragment(t, r1, g1);
      FirstFragment(t, r2, g2);
      CutIntoTail(t, r1, g1);
      CutIntoTail(t, r2, g2);
      assert Junction(r1, g1, 0) && Junction(r2, g2, 0);
      CutHead(i1, r1[1..], g1[1..]);
      CutHead(i2, r2[1..], g2[1..]);
      SpaceRunUnique(g1[0], i1, g2[0], i2);
      CutIntoUnique(i1, r1[1..], g1[1..], r2[1..], g2[1..]);
      assert r1 == [r1[0]] + r1[1..] && r2 == [r2[0]] + r2[1..];
      assert g1 == [g1[0]] + g1[1..] && g2 == [g2[0]] + g2[1..];
    }
  }

  /**
   * `SPLIT_SENT_RE.split(s)` is exactly the cutting of `s` at its cuts: `r` is the split
   * if and only if some runs `gaps` cut `s` into `r`.
   */
  lemma SplitSentencesIff(s: string, r: seq<string>)
    ensures r == SplitSentences(s) <==> exists gaps :: CutInto(s, r, gaps)
  {
    var gs := SplitSentencesCuts(s);
    if exists gaps :: CutInto(s, r, gaps) {
      var gaps :| CutInto(s, r, gaps);
      CutIntoUnique(s, r, gaps, SplitSentences(s), gs);
    }
  }
}
