/**
 * `chunk_text`: body text is split on whitespace into words, and the words
 * are cut into windows of `perChunk` words whose starts are
 * `perChunk - overlap` words apart, each window joined back with single
 * spaces. Token budgets are turned into word counts by `int(tokens / 1.33)`.
 */
module Chunker {
  import opened Text

  /** CHUNK_SIZE and CHUNK_OVERLAP, in tokens, in both ingestion scripts. */
  const ChunkSize: nat := 500
  const ChunkOverlap: nat := 50

  /** `int(tokens / 1.33)`, computed exactly as `tokens * 100 / 133`. */
  function TokensToWords(tokens: nat): nat {
    tokens * 100 / 133
  }

  /**
   * Where window `k` starts when windows advance by `step` words, that is
   * `k * step` (see `WindowStartProduct`), counted up one step at a time so
   * that the proofs about windows stay linear.
   */
  function WindowStart(k: nat, step: nat): nat {
    if k == 0 then 0 else WindowStart(k - 1, step) + step
  }

  lemma {:induction false} WindowStartProduct(k: nat, step: nat)
    ensures WindowStart(k, step) == k * step
  {
    if k > 0 {
      WindowStartProduct(k - 1, step);
    }
  }

  /** The default budgets give 375-word windows overlapping by 37 words. */
  lemma DefaultWordCounts()
    ensures TokensToWords(ChunkSize) == 375
    ensures TokensToWords(ChunkOverlap) == 37
  {
  }

  /** `a * d + d <= b * d` whenever `a < b`: the step the division lemmas need. */
  lemma {:induction false} MulStrict(a: int, b: int, d: int)
    requires d > 0
    ensures a < b ==> a * d + d <= b * d
    decreases b - a
  {
    if a < b {
      assert (b - 1) * d + d == b * d;
      if a + 1 < b {
        MulStrict(a, b - 1, d);
      }
    }
  }

  /** Division is unique: a quotient-remainder pair pins down `n / d`. */
  lemma DivUnique(n: int, d: int, q: int, r: int)
    requires d > 0 && 0 <= r < d && n == q * d + r
    ensures n / d == q
  {
    var q', r' := n / d, n % d;
    assert n == q' * d + r' && 0 <= r' < d;
    MulStrict(q', q, d);
    MulStrict(q, q', d);
  }

  /**
   * `c` windows `step` apart are the fewest that reach past `m` words exactly
   * when `c == ceil(m / step)`, written `(m + step - 1) / step` on naturals.
   */
  lemma CeilingCount(m: nat, step: nat, c: nat)
    requires step > 0 && c > 0
    requires (c - 1) * step < m <= c * step
    ensures c == (m + step - 1) / step
  {
    assert (c - 1) * step == c * step - step;
    DivUnique(m + step - 1, step, c, m - 1 - (c - 1) * step);
  }

  /** `words[start:start + size]`, with Python's clamping of both ends. */
  function Window(words: seq<string>, start: nat, size: nat): seq<string>
  {
    if start >= |words| then []
    else words[start..if start + size <= |words| then start + size else |words|]
  }

  /**
   * The chunking loop entered with `start`: one window per iteration, the
   * next start `overlap` words before the current window's nominal end, until
   * the start passes the last word. There are `ceil((|words| - start) / step)`
   * windows.
   */
  function ChunksFrom(words: seq<string>, perChunk: nat, overlap: nat, start: nat): (r: seq<seq<string>>)
    requires overlap < perChunk
    ensures |r| == 0 <==> start >= |words|
    decreases |words| - start
  {
    if start >= |words| then []
    else [Window(words, start, perChunk)] + ChunksFrom(words, perChunk, overlap, start + perChunk - overlap)
  }

  /**
   * The loop entered at `start` runs `c` times, where `c` is the least count
   * with `start + c * step >= |words|`: the last window starts before the end
   * and one more step would not.
   */
  lemma {:induction false} ChunkCountFrom(words: seq<string>, perChunk: nat, overlap: nat, start: nat)
    requires overlap < perChunk
    requires start < |words|
    ensures var c := |ChunksFrom(words, perChunk, overlap, start)|;
      var step := perChunk - overlap;
      c > 0 && start + (c - 1) * step < |words| <= start + c * step
    decreases |words| - start
  {
    var step := perChunk - overlap;
    var r := ChunksFrom(words, perChunk, overlap, start);
    var rest := ChunksFrom(words, perChunk, overlap, start + step);
    assert |r| == 1 + |rest|;
    if start + step < |words| {
      ChunkCountFrom(words, perChunk, overlap, start + step);
      assert (|r| - 1) * step == |rest| * step;
      assert |r| * step == |rest| * step + step;
      assert (|rest| - 1) * step == |rest| * step - step;
    }
  }

  /** Window `k` of the loop entered at `start` begins at word `start + k * step`. */
  lemma {:induction false} ChunkAt(words: seq<string>, perChunk: nat, overlap: nat, start: nat, k: nat)
    requires overlap < perChunk
    requires k < |ChunksFrom(words, perChunk, overlap, start)|
    ensures start + WindowStart(k, perChunk - overlap) < |words|
    ensures ChunksFrom(words, perChunk, overlap, start)[k]
         == Window(words, start + WindowStart(k, perChunk - overlap), perChunk)
    decreases k
  {
    var step := perChunk - overlap;
    ChunksFromStep(words, perChunk, overlap, start, k);
    if k == 0 {
      assert WindowStart(0, step) == 0;
    } else {
      ChunkAt(words, perChunk, overlap, start + step, k - 1);
      ShiftStart(start, step, k);
      SameWindow(words, start + step + WindowStart(k - 1, step), start + WindowStart(k, step), perChunk);
    }
  }

  lemma SameWindow(words: seq<string>, a: nat, b: nat, size: nat)
    requires a == b
    ensures Window(words, a, size) == Window(words, b, size)
  {
  }

  /** The first window of the loop entered at `start` is the one at `start`;
      window `k > 0` is window `k - 1` of the loop entered one step later. */
  lemma ChunksFromStep(words: seq<string>, perChunk: nat, overlap: nat, start: nat, k: nat)
    requires overlap < perChunk
    requires k < |ChunksFrom(words, perChunk, overlap, start)|
    ensures start < |words|
    ensures k == 0 ==> ChunksFrom(words, perChunk, overlap, start)[0] == Window(words, start, perChunk)
    ensures k > 0 ==> k - 1 < |ChunksFrom(words, perChunk, overlap, start + (perChunk - overlap))|
    ensures k > 0 ==>
      ChunksFrom(words, perChunk, overlap, start)[k] == ChunksFrom(words, perChunk, overlap, start + (perChunk - overlap))[k - 1]
  {
  }

  /** Window `k` from `start` is window `k - 1` from one step later. */
  lemma ShiftStart(start: nat, step: nat, k: nat)
    requires k > 0
    ensures start + step + WindowStart(k - 1, step) == start + WindowStart(k, step)
  {
  }

  /** The word windows of a whole word list. */
  function WordChunks(words: seq<string>, perChunk: nat, overlap: nat): seq<seq<string>>
    requires overlap < perChunk
  {
    ChunksFrom(words, perChunk, overlap, 0)
  }

  /**
   * There are `ceil(|words| / step)` windows: the number of starts
   * `0, step, 2 * step, ...` below `|words|`.
   */
  lemma ChunkCount(words: seq<string>, perChunk: nat, overlap: nat)
    requires overlap < perChunk
    ensures var step := perChunk - overlap;
      |WordChunks(words, perChunk, overlap)| == (|words| + step - 1) / step
  {
    var step := perChunk - overlap;
    if |words| > 0 {
      ChunkCountFrom(words, perChunk, overlap, 0);
      CeilingCount(|words|, step, |WordChunks(words, perChunk, overlap)|);
    }
  }

  /** The closed form of the loop: window `k` is `words[k * step : k * step + perChunk]`. */
  lemma WindowsClosedForm(words: seq<string>, perChunk: nat, overlap: nat)
    requires overlap < perChunk
    ensures forall k :: 0 <= k < |ChunksFrom(words, perChunk, overlap, 0)| ==>
      ChunksFrom(words, perChunk, overlap, 0)[k] == Window(words, WindowStart(k, perChunk - overlap), perChunk)
  {
    var r := ChunksFrom(words, perChunk, overlap, 0);
    forall k | 0 <= k < |r|
      ensures r[k] == Window(words, WindowStart(k, perChunk - overlap), perChunk)
    {
      ChunkAt(words, perChunk, overlap, 0, k);
    }
  }

  /**
   * `chunk_text(text, chunk_size, overlap)`. The source never terminates when
   * the word step is not positive, hence the precondition.
   */
  function ChunkText(text: string, chunkSize: nat, overlap: nat): (chunks: seq<string>)
    requires TokensToWords(overlap) < TokensToWords(chunkSize)
    ensures |chunks| == |WordChunks(Words(text), TokensToWords(chunkSize), TokensToWords(overlap))|
    ensures forall k :: 0 <= k < |chunks| ==>
      chunks[k] == Join(Window(Words(text), WindowStart(k, TokensToWords(chunkSize) - TokensToWords(overlap)),
                               TokensToWords(chunkSize)), " ")
  {
    JoinedChunks(Words(text), TokensToWords(chunkSize), TokensToWords(overlap))
  }

  /** The windows of a word list, each joined with single spaces. */
  function JoinedChunks(words: seq<string>, wpc: nat, wo: nat): (chunks: seq<string>)
    requires wo < wpc
    ensures |chunks| == |WordChunks(words, wpc, wo)|
    ensures forall k :: 0 <= k < |chunks| ==> chunks[k] == Join(Window(words, WindowStart(k, wpc - wo), wpc), " ")
  {
    JoinedWindows(words, wpc, wo);
    JoinWindows(WordChunks(words, wpc, wo))
  }

  lemma JoinedWindows(words: seq<string>, wpc: nat, wo: nat)
    requires wo < wpc
    ensures var cs := JoinWindows(WordChunks(words, wpc, wo));
      forall k :: 0 <= k < |cs| ==> cs[k] == Join(Window(words, WindowStart(k, wpc - wo), wpc), " ")
  {
    var ws := WordChunks(words, wpc, wo);
    var cs := JoinWindows(ws);
    forall k | 0 <= k < |cs|
      ensures cs[k] == Join(Window(words, WindowStart(k, wpc - wo), wpc), " ")
    {
      ChunkAt(words, wpc, wo, 0, k);
      assert ws[k] == Window(words, WindowStart(k, wpc - wo), wpc);
    }
  }

  /** Each window joined back into text with single spaces. */
  function JoinWindows(windows: seq<seq<string>>): (chunks: seq<string>)
    ensures |chunks| == |windows|
    ensures forall k :: 0 <= k < |windows| ==> chunks[k] == Join(windows[k], " ")
  {
    seq(|windows|, k requires 0 <= k < |windows| => Join(windows[k], " "))
  }

  /** The number of chunks is `ceil(|words| / step)`. */
  lemma ChunkTextCount(text: string, chunkSize: nat, overlap: nat)
    requires TokensToWords(overlap) < TokensToWords(chunkSize)
    ensures var step := TokensToWords(chunkSize) - TokensToWords(overlap);
      |ChunkText(text, chunkSize, overlap)| == (|Words(text)| + step - 1) / step
  {
    ChunkCount(Words(text), TokensToWords(chunkSize), TokensToWords(overlap));
  }

  // ---------------------------------------------------------------------------
  // properties
  // ---------------------------------------------------------------------------

  /** No chunks exactly when the text has no words. */
  lemma ChunkTextEmptyIff(text: string, chunkSize: nat, overlap: nat)
    requires TokensToWords(overlap) < TokensToWords(chunkSize)
    ensures ChunkText(text, chunkSize, overlap) == [] <==> AllSpace(text)
  {
    WordsEmptyIff(text);
  }

  /** At most `step` words give exactly one window holding all of them. */
  lemma SingleChunk(words: seq<string>, perChunk: nat, overlap: nat)
    requires overlap < perChunk
    requires 0 < |words| <= perChunk - overlap
    ensures WordChunks(words, perChunk, overlap) == [words]
  {
    ChunkAt(words, perChunk, overlap, 0, 0);
    var r := WordChunks(words, perChunk, overlap);
    assert r[0] == Window(words, 0, perChunk) == words;
  }

  /**
   * More than `step` but at most `perChunk` words give two windows: all the
   * words, then a suffix of them. Holds when the overlap is at most the step,
   * as for the 375/37 defaults.
   */
  lemma TwoChunks(words: seq<string>, perChunk: nat, overlap: nat)
    requires overlap < perChunk && overlap <= perChunk - overlap
    requires perChunk - overlap < |words| <= perChunk
    ensures var r := WordChunks(words, perChunk, overlap);
      && |r| == 2
      && r[0] == words
      && r[1] == words[perChunk - overlap..]
  {
    var step := perChunk - overlap;
    ChunkAt(words, perChunk, overlap, 0, 0);
    ChunkAt(words, perChunk, overlap, 0, 1);
    var r := WordChunks(words, perChunk, overlap);
    assert r[0] == Window(words, 0, perChunk);
    assert r[1] == Window(words, step, perChunk);
  }

  /** Every window holds between 1 and `perChunk` words. */
  lemma ChunkSizes(words: seq<string>, perChunk: nat, overlap: nat)
    requires overlap < perChunk
    ensures forall k :: 0 <= k < |WordChunks(words, perChunk, overlap)| ==>
      1 <= |WordChunks(words, perChunk, overlap)[k]| <= perChunk
  {
    var r := WordChunks(words, perChunk, overlap);
    forall k | 0 <= k < |r|
      ensures 1 <= |r[k]| <= perChunk
    {
      ChunkAt(words, perChunk, overlap, 0, k);
    }
  }

  /**
   * No chunk splits a word: splitting chunk `k` again gives exactly its
   * window of the text's words, which has between 1 and `perChunk` words.
   */
  lemma ChunkResplit(text: string, chunkSize: nat, overlap: nat, k: nat)
    requires TokensToWords(overlap) < TokensToWords(chunkSize)
    requires k < |ChunkText(text, chunkSize, overlap)|
    ensures var step := TokensToWords(chunkSize) - TokensToWords(overlap);
      WindowStart(k, step) < |Words(text)| &&
      var window := Window(Words(text), WindowStart(k, step), TokensToWords(chunkSize));
      && Words(ChunkText(text, chunkSize, overlap)[k]) == window
      && 1 <= |window| <= TokensToWords(chunkSize)
  {
    var words, wpc, wo := Words(text), TokensToWords(chunkSize), TokensToWords(overlap);
    var start := WindowStart(k, wpc - wo);
    var window := Window(words, start, wpc);
    assert k < |WordChunks(words, wpc, wo)|;
    ChunkAt(words, wpc, wo, 0, k);
    ChunkTextAt(text, chunkSize, overlap, k);
    WindowOfWords(words, start, wpc);
    WordsOfJoin(window);
    WindowSize(words, start, wpc);
  }

  /** Chunk `k` of the text is window `k` of its words, joined. */
  lemma ChunkTextAt(text: string, chunkSize: nat, overlap: nat, k: nat)
    requires TokensToWords(overlap) < TokensToWords(chunkSize)
    requires k < |ChunkText(text, chunkSize, overlap)|
    ensures ChunkText(text, chunkSize, overlap)[k]
      == Join(Window(Words(text), WindowStart(k, TokensToWords(chunkSize) - TokensToWords(overlap)), TokensToWords(chunkSize)), " ")
  {
  }

  /** A window that starts inside the text holds between one and `size` words. */
  lemma WindowSize(words: seq<string>, start: nat, size: nat)
    requires start < |words| && size > 0
    ensures 1 <= |Window(words, start, size)| <= size
  {
  }

  /** A window of words consists of words. */
  lemma WindowOfWords(words: seq<string>, start: nat, size: nat)
    requires forall i :: 0 <= i < |words| ==> IsWord(words[i])
    ensures var w := Window(words, start, size);
      forall i :: 0 <= i < |w| ==> IsWord(w[i])
  {
    var w := Window(words, start, size);
    if start < |words| {
      forall i | 0 <= i < |w| ensures IsWord(w[i]) {
        assert w[i] == words[start + i];
      }
    }
  }

  /**
   * Every word from `start` on falls in the step-long stretch at the head of
   * some window of the loop entered at `start`.
   */
  lemma {:induction false} CoverageFrom(words: seq<string>, perChunk: nat, overlap: nat, start: nat, j: nat)
    returns (k: nat)
    requires overlap < perChunk
    requires start <= j < |words|
    ensures k < |ChunksFrom(words, perChunk, overlap, start)|
    ensures start + WindowStart(k, perChunk - overlap) <= j < start + WindowStart(k, perChunk - overlap) + (perChunk - overlap)
    decreases |words| - start
  {
    var step := perChunk - overlap;
    if j < start + step {
      k := 0;
    } else {
      var k' := CoverageFrom(words, perChunk, overlap, start + step, j);
      k := k' + 1;
      ShiftStart(start, step, k);
    }
  }

  /** Every word lies in some window: word `j` is word `j - k * step` of window `k`. */
  lemma ChunkCoverage(words: seq<string>, perChunk: nat, overlap: nat, j: nat)
    requires overlap < perChunk
    requires j < |words|
    ensures var r := WordChunks(words, perChunk, overlap);
      var step := perChunk - overlap;
      exists k :: 0 <= k < |r| && WindowStart(k, step) <= j < WindowStart(k, step) + |r[k]| && r[k][j - WindowStart(k, step)] == words[j]
  {
    var k := CoverageAt(words, perChunk, overlap, j);
  }

  lemma CoverageAt(words: seq<string>, perChunk: nat, overlap: nat, j: nat) returns (k: nat)
    requires overlap < perChunk
    requires j < |words|
    ensures var r := WordChunks(words, perChunk, overlap);
      var step := perChunk - overlap;
      k < |r| && WindowStart(k, step) <= j < WindowStart(k, step) + |r[k]| && r[k][j - WindowStart(k, step)] == words[j]
  {
    var r := WordChunks(words, perChunk, overlap);
    k := CoverageFrom(words, perChunk, overlap, 0, j);
    var s := WindowStart(k, perChunk - overlap);
    ChunkAt(words, perChunk, overlap, 0, k);
    assert r[k] == Window(words, s, perChunk);
    WindowHolds(words, s, perChunk, j);
  }

  /** A word within a window's nominal span is in the window, at its offset. */
  lemma WindowHolds(words: seq<string>, start: nat, size: nat, j: nat)
    requires start <= j < |words| && j < start + size
    ensures start <= j < start + |Window(words, start, size)|
    ensures Window(words, start, size)[j - start] == words[j]
  {
  }

  /**
   * Consecutive windows overlap by `overlap` words: when window `k` is full,
   * its last `overlap` words are the first `overlap` words of window `k + 1`;
   * when it is cut short by the end of the text, window `k + 1` is a suffix
   * of it.
   */
  lemma ChunkOverlapWords(words: seq<string>, perChunk: nat, overlap: nat, k: nat)
    requires overlap < perChunk
    requires k + 1 < |WordChunks(words, perChunk, overlap)|
    ensures var r := WordChunks(words, perChunk, overlap);
      var step := perChunk - overlap;
      && (|r[k]| == perChunk ==> |r[k + 1]| >= overlap && r[k][step..] == r[k + 1][..overlap])
      && (|r[k]| < perChunk ==> step <= |r[k]| && r[k + 1] == r[k][step..])
  {
    var s := ChunkPair(words, perChunk, overlap, k);
    FullWindowOverlap(words, s, perChunk, overlap);
    ShortWindowOverlap(words, s, perChunk, overlap);
  }

  /** Consecutive chunks are the windows at `s` and one step later. */
  lemma ChunkPair(words: seq<string>, perChunk: nat, overlap: nat, k: nat) returns (s: nat)
    requires overlap < perChunk
    requires k + 1 < |WordChunks(words, perChunk, overlap)|
    ensures s + (perChunk - overlap) < |words|
    ensures WordChunks(words, perChunk, overlap)[k] == Window(words, s, perChunk)
    ensures WordChunks(words, perChunk, overlap)[k + 1] == Window(words, s + (perChunk - overlap), perChunk)
  {
    var step := perChunk - overlap;
    s := WindowStart(k, step);
    ChunkAt(words, perChunk, overlap, 0, k);
    ChunkAt(words, perChunk, overlap, 0, k + 1);
    assert WindowStart(k + 1, step) == s + step;
  }

  /** A full window's last `overlap` words begin the next window. */
  lemma FullWindowOverlap(words: seq<string>, s: nat, perChunk: nat, overlap: nat)
    requires overlap < perChunk && s + (perChunk - overlap) < |words|
    ensures var w, next := Window(words, s, perChunk), Window(words, s + (perChunk - overlap), perChunk);
      |w| == perChunk ==> |next| >= overlap && w[perChunk - overlap..] == next[..overlap]
  {
  }

  /** A window cut short by the end of the text has the next window as a suffix. */
  lemma ShortWindowOverlap(words: seq<string>, s: nat, perChunk: nat, overlap: nat)
    requires overlap < perChunk && s + (perChunk - overlap) < |words|
    ensures var w, next := Window(words, s, perChunk), Window(words, s + (perChunk - overlap), perChunk);
      |w| < perChunk ==> perChunk - overlap <= |w| && next == w[perChunk - overlap..]
  {
  }

  /** Chunk `c` without its first `n` words (nothing if it is shorter). */
  function DropWords(c: seq<string>, n: nat): seq<string> {
    if n <= |c| then c[n..] else []
  }

  /** The windows with each one's leading overlap removed, concatenated. */
  function Tails(cs: seq<seq<string>>, overlap: nat): seq<string> {
    if |cs| == 0 then [] else DropWords(cs[0], overlap) + Tails(cs[1..], overlap)
  }

  lemma {:induction false} TailsFrom(words: seq<string>, perChunk: nat, overlap: nat, start: nat)
    requires overlap < perChunk
    ensures var from := if start + overlap <= |words| then start + overlap else |words|;
      Tails(ChunksFrom(words, perChunk, overlap, start), overlap) == words[from..]
    decreases |words| - start
  {
    var n := |words|;
    if start < n {
      TailsFrom(words, perChunk, overlap, start + (perChunk - overlap));
      TailsStep(words, perChunk, overlap, start);
      var from := if start + overlap <= n then start + overlap else n;
      var mid := if start + perChunk <= n then start + perChunk else n;
      var rest := Tails(ChunksFrom(words, perChunk, overlap, start + (perChunk - overlap)), overlap);
      assert rest == words[mid..];
      SliceSplit(words, from, mid);
    }
  }

  /** The first window contributes the words after its overlap. */
  lemma TailsStep(words: seq<string>, perChunk: nat, overlap: nat, start: nat)
    requires overlap < perChunk && start < |words|
    ensures var from := if start + overlap <= |words| then start + overlap else |words|;
      var mid := if start + perChunk <= |words| then start + perChunk else |words|;
      Tails(ChunksFrom(words, perChunk, overlap, start), overlap)
        == words[from..mid] + Tails(ChunksFrom(words, perChunk, overlap, start + (perChunk - overlap)), overlap)
  {
    var n := |words|;
    var r := ChunksFrom(words, perChunk, overlap, start);
    var from := if start + overlap <= n then start + overlap else n;
    var mid := if start + perChunk <= n then start + perChunk else n;
    assert r[0] == words[start..mid];
    assert r[1..] == ChunksFrom(words, perChunk, overlap, start + (perChunk - overlap));
    assert DropWords(r[0], overlap) == words[from..mid];
  }

  /**
   * Reading the first window whole and every later window without its
   * leading overlap gives back exactly the original words, in order.
   */
  lemma Reassemble(words: seq<string>, perChunk: nat, overlap: nat)
    requires overlap < perChunk
    requires |words| > 0
    ensures var r := WordChunks(words, perChunk, overlap);
      r[0] + Tails(r[1..], overlap) == words
  {
    var r := WordChunks(words, perChunk, overlap);
    var step := perChunk - overlap;
    TailsFrom(words, perChunk, overlap, step);
    assert r[1..] == ChunksFrom(words, perChunk, overlap, step);
    var mid := if perChunk <= |words| then perChunk else |words|;
    assert r[0] == words[..mid];
    assert words == words[..mid] + words[mid..];
  }

  /** With the default budgets, 300 and 10 words make one chunk and 900 make three. */
  lemma DefaultChunkCounts(a: seq<string>, b: seq<string>, c: seq<string>)
    requires |a| == 300 && |b| == 10 && |c| == 900
    ensures |WordChunks(a, 375, 37)| == 1
    ensures |WordChunks(b, 375, 37)| == 1
    ensures |WordChunks(c, 375, 37)| == 3
  {
    ChunkCountFrom(a, 375, 37, 0);
    ChunkCountFrom(b, 375, 37, 0);
    ChunkCountFrom(c, 375, 37, 0);
  }
}
