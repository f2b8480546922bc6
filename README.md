# Text processing of a retrieval-augmented support assistant

This project models the text processing in `utils.py` of a small customer-support
assistant. The assistant cuts uploaded documents into overlapping word windows,
embeds them in a FAISS inner-product index and answers questions from the best
matches. Four pieces of that pipeline are modelled:

- `chunk_text` splits a document on whitespace. It then slides a window of `chunk_size` words over it, moving by `max(1, chunk_size - overlap)` words each time. It is modelled as the method `Chunking.ChunkText`, with its `while` loop and loop invariants, proved against the function `Chunking.Chunks`.
- `chunk_docs` concatenates the chunks of several documents into the one flat, numbered list that the index and the context assembler share. It is modelled as the method `Chunking.ChunkDocs`, with its `for` loop, proved against `Chunking.ChunksOfDocs`.
- `gather_context` keeps the returned positions that lie inside the chunk list. It joins those chunks with `"\n\n---\n\n"` and cuts the result to `max_chars` characters. It is modelled as the function `Context.GatherContext`.
- `coverage_score` maps the best similarity score from [-1, 1] onto 0..100 %, clamped and rounded to one decimal. It is modelled as the function `Coverage.CoverageScore`.

The module `Builtins` models the Python built-ins these functions rely on:

- `str.split()` with no argument, splitting on the characters for which `str.isspace()` holds;
- `str.join`;
- slicing `s[lo:hi]`, with negative bounds counted from the end and both bounds clamped.

Because slicing is modelled in full, the model also covers what the code does with a zero or negative `chunk_size` and with a negative `max_chars`.

Files: `builtins.dfy`, `chunking.dfy`, `context.dfy`, `coverage.dfy`.

## Model

| member | source | states |
|---|---|---|
| Builtins.Split | utils.py:12 | definition of `text.split()`: the maximal runs of non-whitespace characters, in order; see `Builtins.SplitWords`, `Builtins.SplitEmptyIff` and `Builtins.SplitJoin` |
| Builtins.Join | utils.py:18 | definition of `sep.join(pieces)`, used for the chunks here and for the context at line 83; see `Builtins.JoinLength` and `Builtins.SplitJoin` |
| Builtins.Slice | utils.py:17 | definition of `s[lo:hi]` with Python's negative and clamped bounds, used for the window here and for `ctx[:max_chars]` at line 84; see `Builtins.SliceFrom`, `Builtins.SlicePrefix` and `Builtins.SliceOfWords` |
| Builtins.SplitWords | utils.py:12 | every piece of `text.split()` is a non-empty word without whitespace |
| Builtins.SplitEmptyIff | utils.py:12 | `text.split()` is empty exactly when the text is empty or all whitespace |
| Builtins.SplitJoin | utils.py:12-18 | for a list of words, `" ".join(ws).split() == ws`, so a chunk can be split back into its words |
| Builtins.JoinLength | utils.py:83 | the joined string is as long as the pieces together plus one separator between each neighbouring pair |
| Builtins.SliceFrom | utils.py:17 | for a start inside the list, `s[lo:hi]` is `s[lo..min(hi, len)]`, and empty when `0 <= hi <= lo` |
| Builtins.SlicePrefix | utils.py:84 | `s[:m]` is a prefix of `s`; it has `min(m, len)` elements for `m >= 0` and `max(0, len + m)` for `m < 0` |
| Builtins.SliceOfWords | utils.py:17 | every slice of a word list is a word list |
| Chunking.Step | utils.py:15 | the stride is at least 1 and at least `chunk_size - overlap`, and equals one of the two |
| Chunking.Chunks | utils.py:7-20 | definition of the value of `chunk_text`: the space-joined window of `chunk_size` words at each start `0, step, 2*step, ...` below `n`; see `Chunking.ChunkCount`, `Chunking.ChunkAt`, `Chunking.ChunkWords`, `Chunking.ReassembleChunks` and `Chunking.ChunkOverlap` |
| Chunking.ChunkText | utils.py:7-20 | with the defaults 300/100 when no sizes are given, the loop returns exactly `Chunks(text, chunk_size, overlap)`, which is `ceil(n / step)` chunks for `n` words |
| Chunking.CeilDivIsCeiling | utils.py:15-19 | the number of loop rounds, counted by repeated subtraction, is `(n + step - 1) // step` |
| Chunking.StartsCount | utils.py:16-19 | from counter value `i`, the loop visits `ceil((n - i) / step)` window starts |
| Chunking.StartsBound | utils.py:16-19 | from counter value `i`, there are at most `n - i` window starts |
| Chunking.StartsAt | utils.py:16-19 | the k-th window start is `i + k * step`, and it lies below `n` |
| Chunking.ChunkCount | utils.py:12-19 | there are `ceil(n / step)` chunks and never more than `n`; there are none exactly when the text is blank |
| Chunking.ChunkAt | utils.py:17-18 | chunk k is `" ".join(words[k*step : k*step + chunk_size])`, and its start lies inside the document |
| Chunking.SpanWords | utils.py:17 | for `chunk_size >= 1`, chunk k's words are `words[k*step .. min(k*step + chunk_size, n)]`: between 1 and `chunk_size` words, all of them whitespace-free |
| Chunking.ChunkWords | utils.py:12-18 | for every chunk size, splitting chunk k again gives back exactly its words; for `chunk_size >= 1` those are `words[k*step .. min(k*step + chunk_size, n)]`, between 1 and `chunk_size` of them |
| Chunking.ZeroChunkSize | utils.py:15-18 | with `chunk_size == 0`, every chunk is the empty string |
| Chunking.ZeroChunkCount | utils.py:15-19 | with `chunk_size == 0` there are `ceil(n / max(1, -overlap))` chunks: `n` when `overlap >= -1`, fewer than `n` for two or more words when `overlap <= -2` |
| Chunking.ReassembleChunks | utils.py:15-19 | for `0 <= overlap < chunk_size`, taking the first `step` words of each chunk, in order, gives the document's words exactly: no gap and no repetition |
| Chunking.ChunkOverlap | utils.py:15-17 | for `0 <= overlap < chunk_size`, chunk k from word `step` on equals the first `min(overlap, len)` words of chunk k+1, for every consecutive pair; when chunk k is a full window, the two share exactly `overlap` words |
| Chunking.SingleChunk | utils.py:15-19 | a non-empty document of at most `min(step, chunk_size)` words gives exactly one chunk: the whole document joined by spaces |
| Chunking.ShortDocumentTwoChunks | utils.py:15-19 | with 300/100, a 250-word document gives two chunks: all 250 words, then words 200..249 |
| Chunking.ThousandWordDocument | utils.py:15-19 | with 300/100, a 1000-word document gives five chunks, and the last one holds words 800..999 |
| Chunking.ChunksOfDocs | utils.py:23-29 | definition of the value of `chunk_docs`: the chunk lists of the documents, concatenated in order; see `Chunking.ChunksOfDocsAppend`, `Chunking.ChunkDocsCount` and `Chunking.FlatIndex` |
| Chunking.ChunkDocs | utils.py:23-29 | with the defaults 300/100 when no sizes are given, the loop returns the chunks of every document in document order; their number is the sum of the per-document counts |
| Chunking.ChunksOfDocsAppend | utils.py:26-28 | chunking two lists of documents one after the other concatenates their chunk lists |
| Chunking.ChunkDocsCount | utils.py:23-29 | the flat list is as long as the per-document counts added up; no documents give no chunks |
| Chunking.FlatIndex | utils.py:26-28 | chunk k of document d sits at flat position `TotalChunks(texts[:d]) + k` |
| Context.Survivors | utils.py:82 | the selected pieces are at most as many as the positions, and each is one of the chunks |
| Context.SurvivorsAppend | utils.py:82 | selecting from two position lists one after the other concatenates the selections |
| Context.SurvivorsSkipsOutOfRange | utils.py:82 | a position outside `0 <= i < len(chunks)`, such as -1, contributes nothing wherever it appears |
| Context.SurvivorsInRange | utils.py:82 | when every position is valid, the selection is `chunks[idx[k]]` for each k, in order, with repeats kept |
| Context.NoValidIndex | utils.py:82-84 | with no valid position, the context is the empty string |
| Context.GatherContext | utils.py:80-84 | with the default budget 3500 when none is given, the context is a prefix of the joined selection, `min(max_chars, len)` characters long, or `max(0, len + max_chars)` for a negative budget |
| Context.ContextFits | utils.py:83-84 | a joined selection that fits the budget is returned whole |
| Context.ContextLength | utils.py:83-84 | before the cut, the length is the chunks' lengths plus 7 characters per separator |
| Context.ContextStartsWithFirst | utils.py:82-84 | the context begins with the first selected chunk, cut to `max_chars` if that chunk is longer |
| Context.TwoLongChunks | utils.py:80-84 | within the default 3500 characters, two 2000-character chunks give chunk 1, the separator and the first 1493 characters of chunk 2 |
| Coverage.MaxScore | utils.py:93 | `max(scores)` is one of the scores and no score exceeds it |
| Coverage.Clamp01 | utils.py:94 | `max(0.0, min(1.0, x))` lies in [0, 1]; it is `x` inside that range, 0 below it and 1 above it |
| Coverage.CoveragePct | utils.py:93-94 | the unrounded percentage lies in 0..100; it is `(top + 1) * 50` for a top score in [-1, 1], 0 at or below -1 and 100 at or above 1 |
| Coverage.Round1 | utils.py:95 | `round(x, 1)` is within 0.05 of `x` and is a whole number of tenths |
| Coverage.Round1Nearest | utils.py:95 | no multiple of 0.1 is closer to `x` than `round(x, 1)`; on a tie, the even tenth is chosen |
| Coverage.Round1Monotone | utils.py:95 | rounding preserves order |
| Coverage.Round1Exact | utils.py:95 | a value that already has one decimal is unchanged by rounding |
| Coverage.CoverageScore | utils.py:87-95 | the score lies in 0..100, and no scores give 0.0 |
| Coverage.CoverageMonotone | utils.py:93-95 | a higher best score never gives a lower coverage |
| Coverage.CoveragePermutation | utils.py:93-95 | reordering the scores does not change the coverage |
| Coverage.CoverageAddScore | utils.py:93-95 | an extra score never lowers the coverage |
| Coverage.LowCoverageThreshold | utils.py:93-95 | for exact scores, the coverage is below 60 exactly when the best score is below 0.199, because 59.95 % rounds up to 60.0 |
| Coverage.CoverageExamples | utils.py:87-95 | `[1.0]` gives 100.0, `[-1.0]` gives 0.0, `[0.0]` gives 50.0, `[0.2]` gives 60.0, `[0.5, -0.3]` gives 75.0 and `[2.5]` gives 100.0 |

## Behaviour of the code as written

- The window loop runs while the start is below the word count, not while the window has not yet reached the end. So a document shorter than `chunk_size` can still give several chunks. With the application's 300/100, a 250-word document gives two chunks, and the second (words 200..249) lies entirely inside the first (`Chunking.ShortDocumentTwoChunks`). One chunk is guaranteed only for documents of at most `step` words (`Chunking.SingleChunk`).
- A 1000-word document at 300/100 gives five chunks, starting at words 0, 200, 400, 600 and 800; the last holds only 200 words (`Chunking.ThousandWordDocument`).
- A `chunk_size` of 0 gives one empty chunk per window start, `ceil(n / max(1, -overlap))` of them; that is one per word when `overlap >= -1` (`Chunking.ZeroChunkSize`, `Chunking.ZeroChunkCount`). Negative sizes follow Python's slice rules, which the model includes.
- `coverage_score` is compared with 60 only after rounding. A top score in [0.199, 0.2) therefore already counts as 60 % (`Coverage.LowCoverageThreshold`).

## Left out

- `read_uploaded_files` (utils.py:32-43): it reads uploaded files and decodes them as UTF-8, ignoring errors. This is I/O and byte decoding; the model starts from decoded text.
- `build_faiss` and `search` (utils.py:46-77): they call an external embedding service (llm_clients.py) and the FAISS library. The model takes the search results, the scores and the positions, as plain inputs.
- app.py and llm_clients.py: user interface, session state, network calls to the language model. llm_clients.py is not part of this model beyond that note.
- Floating point: scores are exact reals. `Coverage.Round1` rounds the exact value with ties to even, as Python's `round` does for values that are exactly representable. Binary floating-point representation, where for example `round(2.675, 2)` gives 2.67, and NaN or infinite scores are not modelled.
- Strings are sequences of code points. The whitespace set of `str.split()` is written out as the characters for which `str.isspace()` holds; no Unicode normalisation is modelled.
- Chunking.ChunkWords: the window form and the 1..`chunk_size` bound are stated only for `chunk_size >= 1`. For other sizes, `Chunking.ChunkAt` gives the Python slice itself.
- Chunking.ChunkOverlap: stated only for `0 <= overlap < chunk_size`, where the stride is `chunk_size - overlap`. Outside that range the promise to share exactly `overlap` words does not apply. When `overlap >= chunk_size` the stride is 1, and full neighbouring windows share `chunk_size - 1` words; the word-level lemma `SpansOverlap` covers any stride from 1 to `chunk_size`. When `overlap < 0 <= chunk_size` the stride is `chunk_size - overlap`, larger than `chunk_size`, and consecutive windows leave `-overlap` words out; no lemma states that case.
