/** The chunker of utils.py: `chunk_text` slides a window of `chunkSize`
    words over a document with stride `max(1, chunkSize - overlap)`, and
    `chunk_docs` concatenates the chunks of several documents, which fixes
    the flat chunk numbering the index and the context assembler use. */
module Chunking {
  import opened Builtins

  /** The stride `max(1, chunk_size - overlap)`: never below one, so the
      window start always moves forward. */
  function Step(chunkSize: int, overlap: int): (step: int)
    ensures step >= 1 && step >= chunkSize - overlap
    ensures step == 1 || step == chunkSize - overlap
  {
    if 1 > chunkSize - overlap then 1 else chunkSize - overlap
  }

  /** `ceil(a / b)` for a positive divisor, by repeated subtraction
      (CeilDivIsCeiling relates it to integer division). */
  function CeilDiv(a: nat, b: nat): nat
    requires b >= 1
    decreases a
  {
    if a == 0 then 0 else if a <= b then 1 else 1 + CeilDiv(a - b, b)
  }

  /** The window starts the loop of `chunk_text` visits once its counter
      has reached `i`: `i, i + step, i + 2 * step, ...` while below `n`. */
  function StartsFrom(n: nat, step: nat, i: nat): seq<nat>
    requires step >= 1
    decreases n - i
  {
    if i < n then [i] + StartsFrom(n, step, i + step) else []
  }

  /** `words[i:i + chunkSize]`: the words of the chunk whose window starts at `i`. */
  function Span(words: seq<string>, chunkSize: int, i: nat): seq<string> {
    Slice(words, i, i + chunkSize)
  }

  /** The word lists of the chunks for a list of window starts, in order. */
  function Spans(words: seq<string>, chunkSize: int, starts: seq<nat>): (spans: seq<seq<string>>)
    ensures |spans| == |starts|
  {
    if starts == [] then []
    else [Span(words, chunkSize, starts[0])] + Spans(words, chunkSize, starts[1..])
  }

  /** `" ".join(span)` for each span in turn. */
  function JoinEach(spans: seq<seq<string>>): (chunks: seq<string>)
    ensures |chunks| == |spans|
  {
    if spans == [] then [] else [Join(" ", spans[0])] + JoinEach(spans[1..])
  }

  /** The word lists of the chunks of `chunk_text(text, chunkSize, overlap)`. */
  function ChunkSpans(text: string, chunkSize: int, overlap: int): seq<seq<string>> {
    var words := Split(text);
    Spans(words, chunkSize, StartsFrom(|words|, Step(chunkSize, overlap), 0))
  }

  /** The value of `chunk_text(text, chunkSize, overlap)`. */
  function Chunks(text: string, chunkSize: int, overlap: int): seq<string> {
    JoinEach(ChunkSpans(text, chunkSize, overlap))
  }

  /** `chunk_text`: the `while` loop of utils.py, for any chunk size and
      overlap (it terminates because the stride is at least one). */
  method ChunkText(text: string, chunkSize: int := 300, overlap: int := 100) returns (chunks: seq<string>)
    ensures chunks == Chunks(text, chunkSize, overlap)
    ensures |chunks| == CeilDiv(|Split(text)|, Step(chunkSize, overlap))
  {
    var words := Split(text);
    chunks := [];
    var i: nat := 0;
    var step := Step(chunkSize, overlap);
    ghost var visited: seq<nat> := [];
    while i < |words|
      invariant visited + StartsFrom(|words|, step, i) == StartsFrom(|words|, step, 0)
      invariant chunks == JoinEach(Spans(words, chunkSize, visited))
      decreases |words| - i
    {
      var chunkWords := Slice(words, i, i + chunkSize);
      SpansSnoc(words, chunkSize, visited, i);
      JoinEachSnoc(Spans(words, chunkSize, visited), chunkWords);
      chunks := chunks + [Join(" ", chunkWords)];
      StartsAppend(visited, |words|, step, i);
      visited := visited + [i];
      i := i + step;
    }
    assert visited + [] == visited;
    StartsCount(|words|, step, 0);
  }

  /** All chunks of `texts`, document after document. */
  function ChunksOfDocs(texts: seq<string>, chunkSize: int, overlap: int): seq<string> {
    if texts == [] then []
    else Chunks(texts[0], chunkSize, overlap) + ChunksOfDocs(texts[1..], chunkSize, overlap)
  }

  /** The sum over the documents of `ceil(words / step)`. */
  function TotalChunks(texts: seq<string>, chunkSize: int, overlap: int): nat {
    if texts == [] then 0
    else CeilDiv(|Split(texts[0])|, Step(chunkSize, overlap)) + TotalChunks(texts[1..], chunkSize, overlap)
  }

  /** `chunk_docs`: the `for` loop of utils.py extending one flat list. */
  method ChunkDocs(texts: seq<string>, chunkSize: int := 300, overlap: int := 100) returns (allChunks: seq<string>)
    ensures allChunks == ChunksOfDocs(texts, chunkSize, overlap)
    ensures |allChunks| == TotalChunks(texts, chunkSize, overlap)
  {
    allChunks := [];
    for j := 0 to |texts|
      invariant allChunks == ChunksOfDocs(texts[..j], chunkSize, overlap)
    {
      var parts := ChunkText(texts[j], chunkSize, overlap);
      ChunksOfDocsStep(texts, j, chunkSize, overlap);
      allChunks := allChunks + parts;
    }
    assert texts[..|texts|] == texts;
    ChunkDocsCount(texts, chunkSize, overlap);
  }

  // ---------------------------------------------------------------------
  // Arithmetic: CeilDiv is ceil(a / b)

  lemma MulAtLeast(b: nat, d: int)
    requires d >= 1
    ensures b * d >= b
  {
  }

  lemma DivUnique(x: nat, b: nat, q: int, r: int)
    requires b >= 1 && 0 <= r < b && x == b * q + r
    ensures x / b == q
  {
    var d := q - x / b;
    assert b * d == x % b - r;
    if d >= 1 {
      MulAtLeast(b, d);
    } else if d <= -1 {
      MulAtLeast(b, -d);
    }
  }

  /** The repeated-subtraction count is Python's `ceil(a / b)`,
      `(a + b - 1) // b`. */
  lemma {:induction false} CeilDivIsCeiling(a: nat, b: nat)
    requires b >= 1
    ensures CeilDiv(a, b) == (a + b - 1) / b
    decreases a
  {
    if a == 0 {
      DivUnique(b - 1, b, 0, b - 1);
    } else if a <= b {
      DivUnique(a + b - 1, b, 1, a - 1);
    } else {
      CeilDivIsCeiling(a - b, b);
      var q := (a - 1) / b;
      DivUnique(a - 1, b, q, (a - 1) % b);
      DivUnique(a + b - 1, b, q + 1, (a - 1) % b);
    }
  }

  /** `ceil(a / b)` is at most `a`; it is `a` for `b == 1` and below `a`
      for `a, b >= 2`. */
  lemma {:induction false} CeilDivBound(a: nat, b: nat)
    requires b >= 1
    ensures CeilDiv(a, b) <= a
    ensures b == 1 ==> CeilDiv(a, b) == a
    ensures b >= 2 && a >= 2 ==> CeilDiv(a, b) < a
    decreases a
  {
    if a > b {
      CeilDivBound(a - b, b);
    }
  }

  // ---------------------------------------------------------------------
  // The window starts

  lemma StartsUnfold(n: nat, step: nat, i: nat)
    requires step >= 1 && i < n
    ensures StartsFrom(n, step, i) == [i] + StartsFrom(n, step, i + step)
  {
  }

  lemma StartsAppend(visited: seq<nat>, n: nat, step: nat, i: nat)
    requires step >= 1 && i < n
    ensures visited + StartsFrom(n, step, i) == (visited + [i]) + StartsFrom(n, step, i + step)
  {
    StartsUnfold(n, step, i);
  }

  /** From counter value `i` on the loop visits `ceil((n - i) / step)` starts. */
  lemma {:induction false} StartsCount(n: nat, step: nat, i: nat)
    requires step >= 1
    ensures |StartsFrom(n, step, i)| == if i < n then CeilDiv(n - i, step) else 0
    decreases n - i
  {
    if i < n {
      StartsCount(n, step, i + step);
    }
  }

  /** The starts from `i` on are distinct values below `n`, so there are at
      most `n - i` of them. */
  lemma {:induction false} StartsBound(n: nat, step: nat, i: nat)
    requires step >= 1
    ensures |StartsFrom(n, step, i)| <= if i < n then n - i else 0
    decreases n - i
  {
    if i < n {
      StartsBound(n, step, i + step);
    }
  }

  /** The k-th start from `i` on is `i + k * step`, and it lies below `n`. */
  lemma {:induction false} StartsAt(n: nat, step: nat, i: nat, k: nat)
    requires step >= 1
    requires k < |StartsFrom(n, step, i)|
    ensures StartsFrom(n, step, i)[k] == i + k * step < n
    decreases k
  {
    if k > 0 {
      StartsAt(n, step, i + step, k - 1);
      assert i + step + (k - 1) * step == i + k * step;
    }
  }

  // ---------------------------------------------------------------------
  // The spans and their joins

  lemma {:induction false} SpansSnoc(words: seq<string>, chunkSize: int, starts: seq<nat>, i: nat)
    ensures Spans(words, chunkSize, starts + [i])
         == Spans(words, chunkSize, starts) + [Span(words, chunkSize, i)]
    decreases |starts|
  {
    if starts != [] {
      assert (starts + [i])[1..] == starts[1..] + [i];
      SpansSnoc(words, chunkSize, starts[1..], i);
    } else {
      assert [] + [i] == [i];
    }
  }

  lemma {:induction false} JoinEachSnoc(spans: seq<seq<string>>, span: seq<string>)
    ensures JoinEach(spans + [span]) == JoinEach(spans) + [Join(" ", span)]
  {
    if spans != [] {
      assert (spans + [span])[1..] == spans[1..] + [span];
      JoinEachSnoc(spans[1..], span);
    } else {
      assert [] + [span] == [span];
    }
  }

  lemma {:induction false} SpansAt(words: seq<string>, chunkSize: int, starts: seq<nat>, k: nat)
    requires k < |starts|
    ensures Spans(words, chunkSize, starts)[k] == Span(words, chunkSize, starts[k])
  {
    if k > 0 {
      SpansAt(words, chunkSize, starts[1..], k - 1);
    }
  }

  lemma {:induction false} JoinEachAt(spans: seq<seq<string>>, k: nat)
    requires k < |spans|
    ensures JoinEach(spans)[k] == Join(" ", spans[k])
  {
    if k > 0 {
      JoinEachAt(spans[1..], k - 1);
    }
  }

  /** Splitting a joined span of words gives the span back. */
  lemma SplitJoinEach(spans: seq<seq<string>>, k: nat)
    requires k < |spans| && AllWords(spans[k])
    ensures Split(JoinEach(spans)[k]) == spans[k]
  {
    JoinEachAt(spans, k);
    SplitJoin(spans[k]);
  }

  // ---------------------------------------------------------------------
  // chunk_text

  lemma ChunksLength(text: string, chunkSize: int, overlap: int)
    ensures |Chunks(text, chunkSize, overlap)| == CeilDiv(|Split(text)|, Step(chunkSize, overlap))
  {
    StartsCount(|Split(text)|, Step(chunkSize, overlap), 0);
  }

  /** The number of chunks is `ceil(n / step)` for `n` words; it never
      exceeds `n`, and there are none exactly when the text is blank. */
  lemma ChunkCount(text: string, chunkSize: int, overlap: int)
    ensures |Chunks(text, chunkSize, overlap)| == CeilDiv(|Split(text)|, Step(chunkSize, overlap))
    ensures |Chunks(text, chunkSize, overlap)| <= |Split(text)|
    ensures Chunks(text, chunkSize, overlap) == [] <==> forall j :: 0 <= j < |text| ==> IsSpace(text[j])
  {
    ChunksLength(text, chunkSize, overlap);
    StartsBound(|Split(text)|, Step(chunkSize, overlap), 0);
    SplitEmptyIff(text);
  }

  /** The k-th chunk is the space-join of the slice `words[k * step:k * step + chunkSize]`,
      and that window starts inside the document. */
  lemma ChunkAt(text: string, chunkSize: int, overlap: int, k: nat)
    requires k < |Chunks(text, chunkSize, overlap)|
    ensures k * Step(chunkSize, overlap) < |Split(text)|
    ensures ChunkSpans(text, chunkSize, overlap)[k]
         == Slice(Split(text), k * Step(chunkSize, overlap), k * Step(chunkSize, overlap) + chunkSize)
    ensures Chunks(text, chunkSize, overlap)[k] == Join(" ", ChunkSpans(text, chunkSize, overlap)[k])
  {
    var words, step := Split(text), Step(chunkSize, overlap);
    StartsAt(|words|, step, 0, k);
    SpansAt(words, chunkSize, StartsFrom(|words|, step, 0), k);
    JoinEachAt(ChunkSpans(text, chunkSize, overlap), k);
  }

  /** For a positive chunk size, the span of the k-th window start is the
      words `k * step .. min(k * step + chunkSize, n)`. */
  lemma SpanAtWords(words: seq<string>, chunkSize: int, step: nat, k: nat)
    requires chunkSize >= 1 && step >= 1
    requires k < |StartsFrom(|words|, step, 0)|
    ensures k * step < |words|
    ensures Spans(words, chunkSize, StartsFrom(|words|, step, 0))[k]
         == words[k * step..Min(k * step + chunkSize, |words|)]
  {
    StartsAt(|words|, step, 0, k);
    SpansAt(words, chunkSize, StartsFrom(|words|, step, 0), k);
    SliceFrom(words, k * step, k * step + chunkSize);
  }

  /** Every span of a word sequence consists of words. */
  lemma SpansAreWords(words: seq<string>, chunkSize: int, step: nat, k: nat)
    requires AllWords(words) && step >= 1
    requires k < |StartsFrom(|words|, step, 0)|
    ensures AllWords(Spans(words, chunkSize, StartsFrom(|words|, step, 0))[k])
  {
    var starts := StartsFrom(|words|, step, 0);
    SpansAt(words, chunkSize, starts, k);
    SliceOfWords(words, starts[k], starts[k] + chunkSize);
  }

  /** For a positive chunk size, the k-th span is the words
      `k * step .. min(k * step + chunkSize, n)`: one to `chunkSize` words. */
  lemma SpanWords(text: string, chunkSize: int, overlap: int, k: nat)
    requires chunkSize >= 1
    requires k < |Chunks(text, chunkSize, overlap)|
    ensures var words, start := Split(text), k * Step(chunkSize, overlap);
      && start < |words|
      && ChunkSpans(text, chunkSize, overlap)[k]
         == words[start..Min(start + chunkSize, |words|)]
    ensures 1 <= |ChunkSpans(text, chunkSize, overlap)[k]| <= chunkSize
    ensures AllWords(ChunkSpans(text, chunkSize, overlap)[k])
  {
    var words, step := Split(text), Step(chunkSize, overlap);
    SpanAtWords(words, chunkSize, step, k);
    SplitWords(text);
    SpansAreWords(words, chunkSize, step, k);
  }

  /** Splitting the k-th chunk again gives back its span, whatever the chunk
      size; for a positive size that span is the words
      `k * step .. min(k * step + chunkSize, n)`, one to `chunkSize` of them. */
  lemma ChunkWords(text: string, chunkSize: int, overlap: int, k: nat)
    requires k < |Chunks(text, chunkSize, overlap)|
    ensures Split(Chunks(text, chunkSize, overlap)[k]) == ChunkSpans(text, chunkSize, overlap)[k]
    ensures chunkSize >= 1 ==>
      var words, start := Split(text), k * Step(chunkSize, overlap);
      && start < |words|
      && Split(Chunks(text, chunkSize, overlap)[k])
         == words[start..Min(start + chunkSize, |words|)]
    ensures chunkSize >= 1 ==> 1 <= |Split(Chunks(text, chunkSize, overlap)[k])| <= chunkSize
  {
    SplitWords(text);
    SpansAreWords(Split(text), chunkSize, Step(chunkSize, overlap), k);
    SplitJoinEach(ChunkSpans(text, chunkSize, overlap), k);
    if chunkSize >= 1 {
      SpanWords(text, chunkSize, overlap, k);
    }
  }

  /** With a zero chunk size every chunk is the empty string. There is one
      per window start, and the stride is `max(1, -overlap)`. */
  lemma ZeroChunkSize(text: string, overlap: int, k: nat)
    requires k < |Chunks(text, 0, overlap)|
    ensures Chunks(text, 0, overlap)[k] == ""
  {
    var words, start := Split(text), k * Step(0, overlap);
    ChunkAt(text, 0, overlap, k);
    SliceFrom(words, start, start);
  }

  /** With a zero chunk size there are `ceil(n / max(1, -overlap))` (empty)
      chunks for `n` words: one per word when `overlap >= -1`, fewer than
      `n` for two or more words when `overlap <= -2`. */
  lemma ZeroChunkCount(text: string, overlap: int)
    ensures |Chunks(text, 0, overlap)| == CeilDiv(|Split(text)|, if overlap < -1 then -overlap else 1)
    ensures overlap >= -1 ==> |Chunks(text, 0, overlap)| == |Split(text)|
    ensures overlap <= -2 && |Split(text)| >= 2 ==> |Chunks(text, 0, overlap)| < |Split(text)|
  {
    ChunksLength(text, 0, overlap);
    CeilDivBound(|Split(text)|, Step(0, overlap));
  }

  /** The first `step` words of each span, one after the other. */
  function Reassemble(spans: seq<seq<string>>, step: nat): seq<string> {
    if spans == [] then [] else Slice(spans[0], 0, step) + Reassemble(spans[1..], step)
  }

  /** The first `step` words of the span at `i` are the words `i .. min(i + step, n)`. */
  lemma SpanPrefix(words: seq<string>, chunkSize: int, step: nat, i: nat)
    requires 1 <= step <= chunkSize
    requires i < |words|
    ensures Slice(Span(words, chunkSize, i), 0, step)
         == words[i..Min(i + step, |words|)]
  {
    var n := |words|;
    var span := Span(words, chunkSize, i);
    var cut := Min(i + step, n);
    var e := Min(i + chunkSize, n);
    SliceFrom(words, i, i + chunkSize);
    assert span == words[i..e];
    SliceFrom(span, 0, step);
    assert Slice(span, 0, step) == words[i..e][0..cut - i] == words[i..cut];
  }

  lemma SliceConcat<T>(s: seq<T>, i: nat, j: nat)
    requires i <= j <= |s|
    ensures s[i..j] + s[j..] == s[i..]
  {
  }

  lemma SpansCons(words: seq<string>, chunkSize: int, i: nat, rest: seq<nat>)
    ensures Spans(words, chunkSize, [i] + rest) == [Span(words, chunkSize, i)] + Spans(words, chunkSize, rest)
  {
    assert ([i] + rest)[1..] == rest;
  }

  lemma ReassembleCons(span: seq<string>, spans: seq<seq<string>>, step: nat)
    ensures Reassemble([span] + spans, step) == Slice(span, 0, step) + Reassemble(spans, step)
  {
    assert ([span] + spans)[1..] == spans;
  }

  /** The words `start .. min(start + step, n)` for each start in turn. */
  function Strides(words: seq<string>, step: nat, starts: seq<nat>): seq<string> {
    if starts == [] then []
    else
      var cut := Min(starts[0] + step, |words|);
      (if starts[0] <= cut then words[starts[0]..cut] else []) + Strides(words, step, starts[1..])
  }

  lemma {:induction false} ReassembleSpans(words: seq<string>, chunkSize: int, step: nat, starts: seq<nat>)
    requires 1 <= step <= chunkSize
    requires forall j :: 0 <= j < |starts| ==> starts[j] < |words|
    ensures Reassemble(Spans(words, chunkSize, starts), step) == Strides(words, step, starts)
  {
    if starts != [] {
      var rest := starts[1..];
      assert starts == [starts[0]] + rest;
      SpansCons(words, chunkSize, starts[0], rest);
      ReassembleCons(Span(words, chunkSize, starts[0]), Spans(words, chunkSize, rest), step);
      SpanPrefix(words, chunkSize, step, starts[0]);
      ReassembleSpans(words, chunkSize, step, rest);
    }
  }

  lemma {:induction false} StridesCover(words: seq<string>, step: nat, i: nat)
    requires step >= 1 && i <= |words|
    ensures Strides(words, step, StartsFrom(|words|, step, i)) == words[i..]
    decreases |words| - i
  {
    var n := |words|;
    if i < n {
      StartsUnfold(n, step, i);
      var starts := StartsFrom(n, step, i);
      assert starts[0] == i;
      assert starts[1..] == StartsFrom(n, step, i + step);
      if i + step <= n {
        StridesCover(words, step, i + step);
        SliceConcat(words, i, i + step);
      } else {
        assert StartsFrom(n, step, i + step) == [];
      }
    }
  }

  lemma {:induction false} StartsBelow(n: nat, step: nat, i: nat)
    requires step >= 1
    ensures forall j :: 0 <= j < |StartsFrom(n, step, i)| ==> StartsFrom(n, step, i)[j] < n
    decreases n - i
  {
    if i < n {
      StartsUnfold(n, step, i);
      StartsBelow(n, step, i + step);
    }
  }

  /** With `0 <= overlap < chunkSize`, the first `step` words of each chunk,
      in order, are exactly the document's words: no gap, no repetition. */
  lemma ReassembleChunks(text: string, chunkSize: int, overlap: int)
    requires 0 <= overlap < chunkSize
    ensures Reassemble(ChunkSpans(text, chunkSize, overlap), chunkSize - overlap) == Split(text)
  {
    var words, step := Split(text), chunkSize - overlap;
    StartsBelow(|words|, step, 0);
    ReassembleSpans(words, chunkSize, step, StartsFrom(|words|, step, 0));
    StridesCover(words, step, 0);
  }

  /** SpanAtWords with the window start `a == k * step` named. */
  lemma SpanWindow(words: seq<string>, chunkSize: int, step: nat, k: nat, a: nat)
    requires chunkSize >= 1 && step >= 1 && a == k * step
    requires k < |StartsFrom(|words|, step, 0)|
    ensures a < |words|
    ensures Spans(words, chunkSize, StartsFrom(|words|, step, 0))[k]
         == words[a..Min(a + chunkSize, |words|)]
  {
    SpanAtWords(words, chunkSize, step, k);
  }

  lemma MulSucc(k: nat, step: nat)
    ensures (k + 1) * step == k * step + step
  {
  }

  /** Two windows of `chunkSize` words, starting `step` apart and clamped to
      the end of `words`, overlap by `chunkSize - step` words or by the rest
      of the second window. */
  lemma WindowOverlap(words: seq<string>, a: nat, step: nat, chunkSize: nat, x: seq<string>, y: seq<string>)
    requires 1 <= step <= chunkSize && a + step < |words|
    requires x == words[a..Min(a + chunkSize, |words|)]
    requires y == words[a + step..Min(a + step + chunkSize, |words|)]
    ensures |x| >= step
    ensures x[step..] == y[..Min(chunkSize - step, |y|)]
    ensures a + chunkSize <= |words| ==> |x| == chunkSize && |y| >= chunkSize - step
  {
    var e1 := Min(a + chunkSize, |words|);
    assert x[step..] == words[a + step..e1];
  }

  /** Consecutive spans overlap by `chunkSize - step` words, or by the whole
      rest of the next span when that is shorter; a full first span has
      exactly `chunkSize` words and is followed by at least `chunkSize - step`. */
  lemma SpansOverlap(words: seq<string>, chunkSize: int, step: nat, k: nat)
    requires 1 <= step <= chunkSize
    requires k + 1 < |StartsFrom(|words|, step, 0)|
    ensures var spans, o := Spans(words, chunkSize, StartsFrom(|words|, step, 0)), chunkSize - step;
      && |spans[k]| >= step
      && spans[k][step..] == spans[k + 1][..Min(o, |spans[k + 1]|)]
      && (k * step + chunkSize <= |words| ==> |spans[k]| == chunkSize && |spans[k + 1]| >= o)
  {
    var spans := Spans(words, chunkSize, StartsFrom(|words|, step, 0));
    var a := k * step;
    MulSucc(k, step);
    SpanWindow(words, chunkSize, step, k, a);
    SpanWindow(words, chunkSize, step, k + 1, a + step);
    WindowOverlap(words, a, step, chunkSize, spans[k], spans[k + 1]);
  }

  /** With `0 <= overlap < chunkSize`, chunk k ends with the first `overlap`
      words of chunk k + 1, or with all of chunk k + 1 when that is shorter.
      When chunk k is a full window, the two share exactly `overlap` words. */
  lemma ChunkOverlap(text: string, chunkSize: int, overlap: int, k: nat)
    requires 0 <= overlap < chunkSize
    requires k + 1 < |Chunks(text, chunkSize, overlap)|
    ensures var spans := ChunkSpans(text, chunkSize, overlap);
      && |spans[k]| >= chunkSize - overlap
      && spans[k][chunkSize - overlap..]
         == spans[k + 1][..Min(overlap, |spans[k + 1]|)]
    ensures k * (chunkSize - overlap) + chunkSize <= |Split(text)| ==>
      var spans := ChunkSpans(text, chunkSize, overlap);
      && |spans[k]| == chunkSize
      && |spans[k + 1]| >= overlap
      && spans[k][chunkSize - overlap..] == spans[k + 1][..overlap]
  {
    SpansOverlap(Split(text), chunkSize, chunkSize - overlap, k);
  }

  /** A document of at most `step` words (and at most `chunkSize`) gives a
      single chunk holding all of it. */
  lemma SingleChunk(text: string, chunkSize: int, overlap: int)
    requires 0 < |Split(text)| <= Step(chunkSize, overlap)
    requires |Split(text)| <= chunkSize
    ensures Chunks(text, chunkSize, overlap) == [Join(" ", Split(text))]
  {
    var words, step := Split(text), Step(chunkSize, overlap);
    StartsUnfold(|words|, step, 0);
    assert StartsFrom(|words|, step, step) == [];
    SliceFrom(words, 0, chunkSize);
    assert words[0..|words|] == words;
    var spans := ChunkSpans(text, chunkSize, overlap);
    assert spans == [Span(words, chunkSize, 0)];
    assert spans[1..] == [];
  }

  /** With the defaults 300/100, a 250-word document still gives two chunks:
      all 250 words, then words 200..249 again. */
  lemma ShortDocumentTwoChunks(text: string)
    requires |Split(text)| == 250
    ensures |Chunks(text, 300, 100)| == 2
    ensures ChunkSpans(text, 300, 100)[0] == Split(text)
    ensures ChunkSpans(text, 300, 100)[1] == Split(text)[200..]
  {
    ChunkCount(text, 300, 100);
    SpanWords(text, 300, 100, 0);
    SpanWords(text, 300, 100, 1);
    assert Split(text)[0..250] == Split(text);
  }

  /** With the defaults 300/100, a 1000-word document gives five chunks,
      starting at words 0, 200, 400, 600 and 800; the last holds 200 words. */
  lemma ThousandWordDocument(text: string)
    requires |Split(text)| == 1000
    ensures |Chunks(text, 300, 100)| == 5
    ensures ChunkSpans(text, 300, 100)[4] == Split(text)[800..]
  {
    ChunkCount(text, 300, 100);
    assert CeilDiv(1000, 200) == 5;
    SpanWords(text, 300, 100, 4);
  }

  // ---------------------------------------------------------------------
  // chunk_docs

  /** Chunking two lists of documents one after the other. */
  lemma {:induction false} ChunksOfDocsAppend(a: seq<string>, b: seq<string>, chunkSize: int, overlap: int)
    ensures ChunksOfDocs(a + b, chunkSize, overlap)
         == ChunksOfDocs(a, chunkSize, overlap) + ChunksOfDocs(b, chunkSize, overlap)
  {
    if a == [] {
      assert a + b == b;
    } else {
      assert (a + b)[0] == a[0];
      assert (a + b)[1..] == a[1..] + b;
      ChunksOfDocsAppend(a[1..], b, chunkSize, overlap);
    }
  }

  /** One round of the loop of `chunk_docs`: the prefix grows by document `j`. */
  lemma ChunksOfDocsStep(texts: seq<string>, j: nat, chunkSize: int, overlap: int)
    requires j < |texts|
    ensures ChunksOfDocs(texts[..j + 1], chunkSize, overlap)
         == ChunksOfDocs(texts[..j], chunkSize, overlap) + Chunks(texts[j], chunkSize, overlap)
  {
    assert texts[..j + 1] == texts[..j] + [texts[j]];
    ChunksOfDocsSnoc(texts[..j], texts[j], chunkSize, overlap);
  }

  lemma ChunksOfDocsSnoc(a: seq<string>, t: string, chunkSize: int, overlap: int)
    ensures ChunksOfDocs(a + [t], chunkSize, overlap)
         == ChunksOfDocs(a, chunkSize, overlap) + Chunks(t, chunkSize, overlap)
  {
    ChunksOfDocsAppend(a, [t], chunkSize, overlap);
    assert [t][1..] == [];
    assert ChunksOfDocs([t], chunkSize, overlap) == Chunks(t, chunkSize, overlap) + [];
  }

  /** The flat chunk list is as long as the per-document counts added up;
      no documents give no chunks. */
  lemma {:induction false} ChunkDocsCount(texts: seq<string>, chunkSize: int, overlap: int)
    ensures |ChunksOfDocs(texts, chunkSize, overlap)| == TotalChunks(texts, chunkSize, overlap)
    ensures texts == [] ==> ChunksOfDocs(texts, chunkSize, overlap) == []
  {
    if texts != [] {
      ChunksLength(texts[0], chunkSize, overlap);
      ChunkDocsCount(texts[1..], chunkSize, overlap);
    }
  }

  /** The flat numbering: chunk `k` of document `d` sits at position
      `TotalChunks(texts[..d]) + k` of the concatenated list. */
  lemma {:induction false} FlatIndex(texts: seq<string>, chunkSize: int, overlap: int, d: nat, k: nat)
    requires d < |texts|
    requires k < |Chunks(texts[d], chunkSize, overlap)|
    ensures TotalChunks(texts[..d], chunkSize, overlap) + k < |ChunksOfDocs(texts, chunkSize, overlap)|
    ensures ChunksOfDocs(texts, chunkSize, overlap)[TotalChunks(texts[..d], chunkSize, overlap) + k]
         == Chunks(texts[d], chunkSize, overlap)[k]
    decreases d
  {
    ChunksLength(texts[0], chunkSize, overlap);
    if d > 0 {
      assert texts[1..][d - 1] == texts[d];
      FlatIndex(texts[1..], chunkSize, overlap, d - 1, k);
      TotalChunksPrefix(texts, chunkSize, overlap, d);
    }
  }

  lemma TotalChunksPrefix(texts: seq<string>, chunkSize: int, overlap: int, d: nat)
    requires 0 < d <= |texts|
    ensures TotalChunks(texts[..d], chunkSize, overlap)
         == CeilDiv(|Split(texts[0])|, Step(chunkSize, overlap)) + TotalChunks(texts[1..][..d - 1], chunkSize, overlap)
  {
    assert texts[..d][0] == texts[0];
    assert texts[..d][1..] == texts[1..][..d - 1];
  }
}
