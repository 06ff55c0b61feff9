/**
 * `_chunk_text` of the summarizer: sliding character windows of width `chunkSize`
 * whose starts are `chunkSize - overlap` apart, each window's text stripped.
 */
module Chunker {
  import opened Strings

  /** `max(0, x)` */
  function Max0(x: int): nat {
    if x < 0 then 0 else x
  }

  /** How far the start of each window is from the start of the one before it. */
  function Stride(size: int, overlap: int): nat
    requires 0 < size && overlap < size
  {
    size - overlap
  }

  /** Where the `j`-th window after a window starting at `from` starts: one stride per window. */
  function StartOf(from: nat, j: nat, size: int, overlap: int): nat
    requires 0 < size && overlap < size
  {
    if j == 0 then from else StartOf(from, j - 1, size, overlap) + Stride(size, overlap)
  }

  /** Window `j` after `from` starts `j` strides later. */
  lemma {:induction false} StartOfClosed(from: nat, j: nat, size: int, overlap: int)
    requires 0 < size && overlap < size
    ensures StartOf(from, j, size, overlap) == from + j * Stride(size, overlap)
  {
    if j > 0 {
      StartOfClosed(from, j - 1, size, overlap);
      assert j * Stride(size, overlap) == (j - 1) * Stride(size, overlap) + Stride(size, overlap);
    }
  }

  /** The first index of window `j` of a text (the windows counted from 0). */
  function WindowLo(j: nat, size: int, overlap: int): nat
    requires 0 < size && overlap < size
  {
    StartOf(0, j, size, overlap)
  }

  /** One past the last index of window `j` of a text of length `n`. */
  function WindowHi(n: nat, j: nat, size: int, overlap: int): int
    requires 0 < size && overlap < size
  {
    Min(WindowLo(j, size, overlap) + size, n)
  }

  /**
   * How many windows the loop visits when it is at `start` in a text of length `n`:
   * none past the end, one if the window reaches the end, otherwise one more than
   * from the next start.
   */
  function CountFrom(n: nat, start: nat, size: int, overlap: int): (c: nat)
    requires 0 < size && overlap < size
    ensures start < n <==> c > 0
    decreases n - start
  {
    if start >= n then 0
    else if start + size >= n then 1
    else 1 + CountFrom(n, start + Stride(size, overlap), size, overlap)
  }

  /** How many chunks a text of length `n` is split into. */
  function WindowCount(n: nat, size: int, overlap: int): nat
    requires 0 < size && overlap < size
  {
    CountFrom(n, 0, size, overlap)
  }

  /** The stripped text of window `j`. */
  function ChunkAt(text: string, j: nat, size: int, overlap: int): (r: string)
    requires 0 < size && overlap < size
    requires WindowLo(j, size, overlap) < |text|
    ensures |r| <= size
  {
    Strip(text[WindowLo(j, size, overlap)..WindowHi(|text|, j, size, overlap)])
  }

  /**
   * `_chunk_text(text, chunk_size, overlap)`: chunk `j` is the stripped text of window
   * `j`, which starts at `j * (chunkSize - overlap)` inside the text and is `chunkSize`
   * wide or cut at the end of the text, and there are `WindowCount` chunks. The
   * window functions need `0 < chunkSize` and `overlap < chunkSize`, which the
   * defaults and the summarizer's call meet.
   */
  method ChunkText(text: string, chunkSize: int := 3000, overlap: int := 200) returns (chunks: seq<string>)
    requires 0 < chunkSize && overlap < chunkSize
    ensures |chunks| == WindowCount(|text|, chunkSize, overlap)
    ensures forall j :: 0 <= j < |chunks| ==>
      WindowLo(j, chunkSize, overlap) < |text| && chunks[j] == ChunkAt(text, j, chunkSize, overlap)
  {
    if text == [] {
      return [];
    }
    chunks := [];
    var start: nat := 0;
    var n := |text|;
    while start < n
      invariant start == WindowLo(|chunks|, chunkSize, overlap)
      invariant |chunks| + CountFrom(n, start, chunkSize, overlap) == WindowCount(n, chunkSize, overlap)
      invariant ChunksMatch(text, chunks, chunkSize, overlap)
      decreases n - start
    {
      ChunkStep(text, chunks, start, chunkSize, overlap);
      CountStepOn(n, |chunks|, start, chunkSize, overlap);
      var end := Min(start + chunkSize, n);
      var chunk := Strip(text[start..end]);
      chunks := chunks + [chunk];
      if end == n {
        break;
      }
      start := Max0(end - overlap);
    }
  }

  /** One turn of the loop: the chunk it cuts is the next window's. */
  lemma ChunkStep(text: string, chunks: seq<string>, start: nat, size: int, overlap: int)
    requires 0 < size && overlap < size
    requires start == WindowLo(|chunks|, size, overlap) && start < |text|
    requires ChunksMatch(text, chunks, size, overlap)
    ensures ChunksMatch(text, chunks + [Strip(text[start..Min(start + size, |text|)])], size, overlap)
  {
    WindowChunk(text, |chunks|, size, overlap);
    AppendChunk(text, chunks, size, overlap);
  }

  /**
   * After window `c` of a text of length `n`, the loop either stops with all the
   * windows counted or carries on at the start of window `c + 1`.
   */
  lemma CountStepOn(n: nat, c: nat, start: nat, size: int, overlap: int)
    requires 0 < size && overlap < size
    requires start == WindowLo(c, size, overlap) && start < n
    requires c + CountFrom(n, start, size, overlap) == WindowCount(n, size, overlap)
    ensures var end := Min(start + size, n);
      && (end == n ==> c + 1 == WindowCount(n, size, overlap))
      && (end != n ==>
            && Max0(end - overlap) == WindowLo(c + 1, size, overlap)
            && c + 1 + CountFrom(n, Max0(end - overlap), size, overlap) == WindowCount(n, size, overlap))
  {
    if start + size < n {
      CountStep(n, start, size, overlap);
      NextStart(0, c, size, overlap);
    }
  }

  /** The chunk the loop cuts at the start of window `j` is that window's chunk. */
  lemma WindowChunk(text: string, j: nat, size: int, overlap: int)
    requires 0 < size && overlap < size && WindowLo(j, size, overlap) < |text|
    ensures var start := WindowLo(j, size, overlap);
      Strip(text[start..Min(start + size, |text|)]) == ChunkAt(text, j, size, overlap)
  {
  }

  /** A window that stops short of the end is followed by the windows one stride later. */
  lemma CountStep(n: nat, start: nat, size: int, overlap: int)
    requires 0 < size && overlap < size && start + size < n
    ensures CountFrom(n, start, size, overlap) == 1 + CountFrom(n, start + Stride(size, overlap), size, overlap)
  {
  }

  /** Chunk `j` of the list is the chunk of window `j`, which starts inside the text. */
  predicate ChunksMatch(text: string, chunks: seq<string>, size: int, overlap: int)
    requires 0 < size && overlap < size
  {
    forall j :: 0 <= j < |chunks| ==>
      WindowLo(j, size, overlap) < |text| && chunks[j] == ChunkAt(text, j, size, overlap)
  }

  /** The chunk of the next window extends a list of the chunks of the windows before it. */
  lemma AppendChunk(text: string, chunks: seq<string>, size: int, overlap: int)
    requires 0 < size && overlap < size
    requires WindowLo(|chunks|, size, overlap) < |text|
    requires ChunksMatch(text, chunks, size, overlap)
    ensures ChunksMatch(text, chunks + [ChunkAt(text, |chunks|, size, overlap)], size, overlap)
  {
  }

  /** The window after the `j`-th starts one stride later. */
  lemma NextStart(from: nat, j: nat, size: int, overlap: int)
    requires 0 < size && overlap < size
    ensures StartOf(from, j + 1, size, overlap) == StartOf(from, j, size, overlap) + Stride(size, overlap)
    ensures StartOf(from, j + 1, size, overlap) == StartOf(from + Stride(size, overlap), j, size, overlap)
  {
    StartOfShift(from, j, size, overlap);
  }

  /** Starting one stride later shifts every window by one. */
  lemma {:induction false} StartOfShift(from: nat, j: nat, size: int, overlap: int)
    requires 0 < size && overlap < size
    ensures StartOf(from, j + 1, size, overlap) == StartOf(from + Stride(size, overlap), j, size, overlap)
  {
    if j > 0 {
      StartOfShift(from, j - 1, size, overlap);
    }
  }

  /**
   * The shape of the windows from `from`: each starts inside the text, every one but
   * the last is full and ends before the end of the text, and, unless the overlap is
   * negative (a gap can then jump past the end), the last reaches the end.
   */
  lemma {:induction false} CountFromShape(n: nat, from: nat, size: int, overlap: int)
    requires 0 < size && overlap < size
    ensures var c := CountFrom(n, from, size, overlap);
      && (forall j :: 0 <= j < c ==> StartOf(from, j, size, overlap) < n)
      && (forall j :: 0 <= j && j + 1 < c ==> StartOf(from, j, size, overlap) + size < n)
      && (c > 0 && 0 <= overlap ==> StartOf(from, c - 1, size, overlap) + size >= n)
    decreases n - from
  {
    var c := CountFrom(n, from, size, overlap);
    assert StartOf(from, 0, size, overlap) == from;
    if from < n && from + size < n {
      var next := from + Stride(size, overlap);
      CountFromShape(n, next, size, overlap);
      forall j | 0 < j < c ensures StartOf(from, j, size, overlap) == StartOf(next, j - 1, size, overlap) {
        NextStart(from, j - 1, size, overlap);
      }
    }
  }

  /**
   * Every chunk comes from a window that starts inside the text; a text yields a
   * chunk exactly when it is not empty.
   */
  lemma WindowsInText(n: nat, size: int, overlap: int)
    requires 0 < size && overlap < size
    ensures n > 0 <==> WindowCount(n, size, overlap) > 0
    ensures forall j :: 0 <= j < WindowCount(n, size, overlap) ==> WindowLo(j, size, overlap) < n
  {
    CountFromShape(n, 0, size, overlap);
  }

  /**
   * Every window but the last is `size` wide and shares exactly `overlap` characters
   * with the next one (a negative overlap is a gap of that many characters), and with
   * a non-negative overlap the last window ends at the end of the text.
   */
  lemma WindowsTile(n: nat, size: int, overlap: int)
    requires 0 < size && overlap < size
    ensures var c := WindowCount(n, size, overlap);
      && (forall j :: 0 <= j && j + 1 < c ==>
            WindowHi(n, j, size, overlap) == WindowLo(j, size, overlap) + size
            && WindowHi(n, j, size, overlap) - WindowLo(j + 1, size, overlap) == overlap)
      && (c > 0 && 0 <= overlap ==> WindowHi(n, c - 1, size, overlap) == n)
  {
    CountFromShape(n, 0, size, overlap);
    var c := WindowCount(n, size, overlap);
    forall j | 0 <= j && j + 1 < c
      ensures WindowHi(n, j, size, overlap) - WindowLo(j + 1, size, overlap) == overlap
    {
      NextStart(0, j, size, overlap);
    }
  }

  predicate InWindow(n: nat, j: nat, size: int, overlap: int, i: int)
    requires 0 < size && overlap < size
  {
    WindowLo(j, size, overlap) <= i < WindowHi(n, j, size, overlap)
  }

  /** With a non-negative overlap the windows from `from` cover every index from `from` to the end. */
  lemma {:induction false} CoverFrom(n: nat, from: nat, size: int, overlap: int, i: nat)
    requires 0 < size && 0 <= overlap < size && from <= i < n
    ensures exists j ::
      (0 <= j < CountFrom(n, from, size, overlap) && StartOf(from, j, size, overlap) <= i < StartOf(from, j, size, overlap) + size)
    decreases n - from
  {
    assert StartOf(from, 0, size, overlap) == from;
    if i >= from + size {
      var next := from + Stride(size, overlap);
      CoverFrom(n, next, size, overlap, i);
      var j :| 0 <= j < CountFrom(n, next, size, overlap)
        && StartOf(next, j, size, overlap) <= i < StartOf(next, j, size, overlap) + size;
      NextStart(from, j, size, overlap);
      assert j + 1 < CountFrom(n, from, size, overlap);
    }
  }

  /** Index `i` of a text of length `n` lies in one of its windows. */
  predicate Covered(n: nat, size: int, overlap: int, i: int)
    requires 0 < size && overlap < size
  {
    exists j :: 0 <= j < WindowCount(n, size, overlap) && InWindow(n, j, size, overlap, i)
  }

  /** With a non-negative overlap every index of the text lies in some window, so no character is lost. */
  lemma WindowsCover(n: nat, size: int, overlap: int)
    requires 0 < size && 0 <= overlap < size
    ensures forall i :: 0 <= i < n ==> Covered(n, size, overlap, i)
  {
    forall i | 0 <= i < n ensures Covered(n, size, overlap, i) {
      CoverFrom(n, 0, size, overlap, i);
      var j :| 0 <= j < CountFrom(n, 0, size, overlap)
        && StartOf(0, j, size, overlap) <= i < StartOf(0, j, size, overlap) + size;
      assert InWindow(n, j, size, overlap, i);
    }
  }
}
