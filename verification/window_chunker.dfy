/** `chunk_text` of redis.py, chroma.py and qdrant.py: overlapping word windows of
    `chunk_size` words, each starting `chunk_size // 2` words after the previous one,
    the last one clipped to the words that remain. */
module WindowChunker {
  import opened Wrappers
  import opened Text

  /** `range(0, len(words), 0)` raises `ValueError`: chunk sizes 0 and 1 give a zero step. */
  datatype ChunkError = ZeroStep

  /** `chunk_size // 2`. Python floors; Dafny's `/` agrees with it for the divisor 2. */
  function Step(chunkSize: int): int {
    chunkSize / 2
  }

  function Min(a: int, b: int): int {
    if a < b then a else b
  }

  /** Python's `s[lo:hi]` for non-negative bounds: both ends are clipped to `len(s)`. */
  function Slice<T>(s: seq<T>, lo: nat, hi: nat): seq<T> {
    var a, b := Min(lo, |s|), Min(hi, |s|);
    if a <= b then s[a..b] else []
  }

  /** The windows for the starts `start, start + step, ...` below `len(words)`. */
  function WindowsFrom(words: seq<string>, chunkSize: int, start: nat): seq<seq<string>>
    requires Step(chunkSize) > 0
    decreases |words| - start
  {
    if start >= |words| then []
    else [words[start..Min(start + chunkSize, |words|)]] + WindowsFrom(words, chunkSize, start + Step(chunkSize))
  }

  /** The word windows `chunk_text` joins. A negative step (negative chunk size) makes
      `range` empty. */
  function Windows(words: seq<string>, chunkSize: int): seq<seq<string>>
    requires Step(chunkSize) != 0
  {
    if Step(chunkSize) < 0 then [] else WindowsFrom(words, chunkSize, 0)
  }

  /** The list `chunk_text(text, chunk_size)` returns. */
  function Chunks(text: string, chunkSize: int): seq<string>
    requires Step(chunkSize) != 0
  {
    JoinEach(Windows(Split(text), chunkSize))
  }

  // ---- the two loops ----

  /** One turn of either loop: the window at `i` is the next chunk. */
  lemma WindowsFromStep(chunks: seq<string>, words: seq<string>, chunkSize: int, i: nat, all: seq<string>)
    requires Step(chunkSize) > 0 && i < |words|
    requires chunks + JoinEach(WindowsFrom(words, chunkSize, i)) == all
    ensures (chunks + [Join(" ", words[i..Min(i + chunkSize, |words|)])])
            + JoinEach(WindowsFrom(words, chunkSize, i + Step(chunkSize))) == all
  {
    var w := words[i..Min(i + chunkSize, |words|)];
    var rest := JoinEach(WindowsFrom(words, chunkSize, i + Step(chunkSize)));
    JoinEachAppend([w], WindowsFrom(words, chunkSize, i + Step(chunkSize)));
    assert chunks + ([Join(" ", w)] + rest) == (chunks + [Join(" ", w)]) + rest;
  }

  /** Past the last word there are no more windows. */
  lemma WindowsFromEnd(chunks: seq<string>, words: seq<string>, chunkSize: int, i: nat, all: seq<string>)
    requires Step(chunkSize) > 0 && i >= |words|
    requires chunks + JoinEach(WindowsFrom(words, chunkSize, i)) == all
    ensures chunks == all
  {
    assert chunks + JoinEach([]) == chunks;
  }

  /** With a positive step, the chunks are the joined windows from the first word. */
  lemma ChunksFrom(text: string, chunkSize: int)
    requires Step(chunkSize) > 0
    ensures Chunks(text, chunkSize) == JoinEach(WindowsFrom(Split(text), chunkSize, 0))
  {
  }

  /** redis.py and chroma.py: `words[i:i + chunk_size]`, clipped by slicing. */
  method ChunkTextSliced(text: string, chunkSize: int) returns (r: Result<seq<string>, ChunkError>)
    ensures Step(chunkSize) == 0 ==> r == Failure(ZeroStep)
    ensures Step(chunkSize) != 0 ==> r == Success(Chunks(text, chunkSize))
  {
    var words := Split(text);
    var step := Step(chunkSize);
    if step == 0 {
      return Failure(ZeroStep);
    }
    var chunks: seq<string> := [];
    if step > 0 {
      chunks := SlicedWindows(words, chunkSize);
      ChunksFrom(text, chunkSize);
    } else {
      NoChunks(text, chunkSize);
    }
    return Success(chunks);
  }

  /** The loop of the slicing `chunk_text` over the split words, for a positive step. */
  method SlicedWindows(words: seq<string>, chunkSize: int) returns (chunks: seq<string>)
    requires Step(chunkSize) > 0
    ensures chunks == JoinEach(WindowsFrom(words, chunkSize, 0))
  {
    ghost var all := JoinEach(WindowsFrom(words, chunkSize, 0));
    chunks := [];
    var i: nat := 0;
    while i < |words|
      invariant chunks + JoinEach(WindowsFrom(words, chunkSize, i)) == all
      decreases |words| - i
    {
      var chunk := Join(" ", Slice(words, i, i + chunkSize));
      SliceClips(words, i, i + chunkSize);
      WindowsFromStep(chunks, words, chunkSize, i, all);
      chunks := chunks + [chunk];
      i := i + Step(chunkSize);
    }
    WindowsFromEnd(chunks, words, chunkSize, i, all);
  }

  /** qdrant.py: the end is clipped explicitly with `min(i + chunk_size, len(words))`. */
  method ChunkTextClipped(text: string, chunkSize: int) returns (r: Result<seq<string>, ChunkError>)
    ensures Step(chunkSize) == 0 ==> r == Failure(ZeroStep)
    ensures Step(chunkSize) != 0 ==> r == Success(Chunks(text, chunkSize))
  {
    var words := Split(text);
    var step := Step(chunkSize);
    if step == 0 {
      return Failure(ZeroStep);
    }
    var chunks: seq<string> := [];
    if step > 0 {
      chunks := ClippedWindows(words, chunkSize);
      ChunksFrom(text, chunkSize);
    } else {
      NoChunks(text, chunkSize);
    }
    return Success(chunks);
  }

  /** The loop of the clipping `chunk_text` over the split words, for a positive step. */
  method ClippedWindows(words: seq<string>, chunkSize: int) returns (chunks: seq<string>)
    requires Step(chunkSize) > 0
    ensures chunks == JoinEach(WindowsFrom(words, chunkSize, 0))
  {
    ghost var all := JoinEach(WindowsFrom(words, chunkSize, 0));
    chunks := [];
    var i: nat := 0;
    while i < |words|
      invariant chunks + JoinEach(WindowsFrom(words, chunkSize, i)) == all
      decreases |words| - i
    {
      var chunkEnd := Min(i + chunkSize, |words|);
      WindowsFromStep(chunks, words, chunkSize, i, all);
      chunks := chunks + [Join(" ", words[i..chunkEnd])];
      i := i + Step(chunkSize);
    }
    WindowsFromEnd(chunks, words, chunkSize, i, all);
  }

  /** The two loops agree: for a start inside the words, slicing to `start + chunk_size`
      is the same as slicing to `min(start + chunk_size, len(words))`. */
  lemma SliceClips<T>(s: seq<T>, lo: nat, hi: nat)
    requires lo < |s| && lo <= hi
    ensures Slice(s, lo, hi) == s[lo..Min(hi, |s|)]
  {
  }

  // ---- properties of the windows ----

  /** Where window `j` starts: `j` steps into the words. */
  function Start(chunkSize: int, j: nat): int {
    j * Step(chunkSize)
  }

  /** Counting from `start`: the last window starts below `len(words)` and one more step
      would reach it or pass it. */
  lemma {:induction false} WindowsFromCount(words: seq<string>, chunkSize: int, start: nat)
    requires Step(chunkSize) > 0
    ensures var k := |WindowsFrom(words, chunkSize, start)|;
      start < |words| ==> k >= 1 && start + (k - 1) * Step(chunkSize) < |words| <= start + k * Step(chunkSize)
    ensures start >= |words| ==> |WindowsFrom(words, chunkSize, start)| == 0
    decreases |words| - start
  {
    var step := Step(chunkSize);
    if start < |words| {
      var next := start + step;
      WindowsFromCount(words, chunkSize, next);
      var k' := |WindowsFrom(words, chunkSize, next)|;
      if next < |words| {
        assert (k' + 1) * step == k' * step + step;
        assert (k' - 1) * step == k' * step - step;
      }
    }
  }

  /** The j-th window starts `j` steps after `start` and is clipped at the end of the words. */
  lemma {:induction false} WindowsFromAt(words: seq<string>, chunkSize: int, start: nat, j: nat)
    requires Step(chunkSize) > 0
    requires j < |WindowsFrom(words, chunkSize, start)|
    ensures start + j * Step(chunkSize) < |words|
    ensures WindowsFrom(words, chunkSize, start)[j]
         == words[start + j * Step(chunkSize)..Min(start + j * Step(chunkSize) + chunkSize, |words|)]
    decreases j
  {
    var step := Step(chunkSize);
    if j > 0 {
      WindowsFromAt(words, chunkSize, start + step, j - 1);
      assert start + step + (j - 1) * step == start + j * step;
    }
  }

  /** The window that holds word `w`: the one starting at the last step at or before `w`. */
  lemma {:induction false} WindowsFromCover(words: seq<string>, chunkSize: int, start: nat, w: nat) returns (j: nat)
    requires Step(chunkSize) > 0 && start <= w < |words|
    ensures j < |WindowsFrom(words, chunkSize, start)|
    ensures start + j * Step(chunkSize) <= w < start + j * Step(chunkSize) + Step(chunkSize)
    decreases |words| - start
  {
    var step := Step(chunkSize);
    if w < start + step {
      j := 0;
    } else {
      var j' := WindowsFromCover(words, chunkSize, start + step, w);
      j := j' + 1;
      assert j * step == j' * step + step;
    }
  }

  /** Window j is `words[j*step : j*step + chunk_size]` clipped at `n`, and it is not empty. */
  lemma WindowsAt(words: seq<string>, chunkSize: int)
    requires Step(chunkSize) > 0
    ensures var n, ws := |words|, Windows(words, chunkSize);
      forall j :: 0 <= j < |ws| ==>
        Start(chunkSize, j) < n && ws[j] == words[Start(chunkSize, j)..Min(Start(chunkSize, j) + chunkSize, n)] && |ws[j]| > 0
  {
    var n, ws := |words|, Windows(words, chunkSize);
    assert ws == WindowsFrom(words, chunkSize, 0);
    forall j | 0 <= j < |ws|
      ensures Start(chunkSize, j) < n && ws[j] == words[Start(chunkSize, j)..Min(Start(chunkSize, j) + chunkSize, n)]
      ensures |ws[j]| > 0
    {
      WindowsFromAt(words, chunkSize, 0, j);
      var st := Start(chunkSize, j);
      assert st == 0 + j * Step(chunkSize);
      assert st < Min(st + chunkSize, n);
    }
  }

  /** There are windows exactly when there are words; the last window starts below `n`
      and reaches it, so no word after the last start is dropped. */
  lemma WindowsLast(words: seq<string>, chunkSize: int)
    requires Step(chunkSize) > 0
    ensures var n, ws := |words|, Windows(words, chunkSize);
      && (n == 0 <==> ws == [])
      && (n > 0 ==> Start(chunkSize, |ws| - 1) < n <= Start(chunkSize, |ws| - 1) + chunkSize)
  {
    var step, n, ws := Step(chunkSize), |words|, Windows(words, chunkSize);
    WindowsFromCount(words, chunkSize, 0);
    if n > 0 {
      var k := |ws|;
      assert (k - 1) * step + step == k * step;
    }
  }

  /** Every word lies in some window, among the first `step` words of it: window
      `j` holds word `w` at position `w - j*step`. */
  lemma WindowOf(words: seq<string>, chunkSize: int, w: nat) returns (j: nat)
    requires Step(chunkSize) > 0 && w < |words|
    ensures j < |Windows(words, chunkSize)|
    ensures Start(chunkSize, j) <= w < Start(chunkSize, j) + Step(chunkSize)
    ensures w - Start(chunkSize, j) < |Windows(words, chunkSize)[j]|
    ensures Windows(words, chunkSize)[j][w - Start(chunkSize, j)] == words[w]
  {
    j := WindowsFromCover(words, chunkSize, 0, w);
    WindowsFromAt(words, chunkSize, 0, j);
  }

  /** At the level of text: each chunk, split again, is exactly the words of its window,
      and no chunk is empty. */
  lemma ChunksSplitBack(text: string, chunkSize: int, j: nat)
    requires Step(chunkSize) != 0
    requires j < |Chunks(text, chunkSize)|
    ensures Step(chunkSize) > 0 && Start(chunkSize, j) < |Split(text)|
    ensures Split(Chunks(text, chunkSize)[j])
         == Split(text)[Start(chunkSize, j)..Min(Start(chunkSize, j) + chunkSize, |Split(text)|)]
    ensures Chunks(text, chunkSize)[j] != ""
  {
    var words := Split(text);
    WindowsAt(words, chunkSize);
    var w := Windows(words, chunkSize)[j];
    assert AllWords(w);
    SplitJoin(w);
    JoinWordsNonEmpty(w);
  }

  /** Text with no words, and any text at a negative chunk size, gives no chunks. */
  lemma NoChunks(text: string, chunkSize: int)
    requires Step(chunkSize) != 0
    ensures Split(text) == [] || Step(chunkSize) < 0 ==> Chunks(text, chunkSize) == []
  {
  }
}
