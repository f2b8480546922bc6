/** `gather_context` of utils.py: the chunks whose positions the search
    returned are joined with a visible separator and the result is cut to a
    character budget. Positions outside the chunk list (such as the -1 a
    FAISS search reports for a missing neighbour) are skipped. */
module Context {
  import opened Builtins

  /** The separator `"\n\n---\n\n"` placed between neighbouring chunks. */
  const Separator: string := "\n\n---\n\n"

  /** `[chunks[i] for i in idx if 0 <= i < len(chunks)]`. */
  function Survivors(chunks: seq<string>, idx: seq<int>): (pieces: seq<string>)
    ensures |pieces| <= |idx|
    ensures forall k :: 0 <= k < |pieces| ==> pieces[k] in chunks
  {
    if idx == [] then []
    else
      var rest := Survivors(chunks, idx[1..]);
      if 0 <= idx[0] < |chunks| then [chunks[idx[0]]] + rest else rest
  }

  /** `gather_context(chunks, idx, max_chars)`: the joined survivors cut to
      `max_chars` characters, Python slice rules included (a negative budget
      drops that many characters from the end). */
  function GatherContext(chunks: seq<string>, idx: seq<int>, maxChars: int := 3500): (ctx: string)
    ensures ctx <= Join(Separator, Survivors(chunks, idx))
    ensures maxChars >= 0 ==> |ctx| == Min(maxChars, |Join(Separator, Survivors(chunks, idx))|)
    ensures maxChars < 0 ==> |ctx| == Max(0, |Join(Separator, Survivors(chunks, idx))| + maxChars)
  {
    var joined := Join(Separator, Survivors(chunks, idx));
    SlicePrefix(joined, maxChars);
    Slice(joined, 0, maxChars)
  }

  // ---------------------------------------------------------------------
  // The selection

  /** Selecting from two index lists one after the other. */
  lemma {:induction false} SurvivorsAppend(chunks: seq<string>, a: seq<int>, b: seq<int>)
    ensures Survivors(chunks, a + b) == Survivors(chunks, a) + Survivors(chunks, b)
  {
    if a == [] {
      assert a + b == b;
    } else {
      assert (a + b)[0] == a[0];
      assert (a + b)[1..] == a[1..] + b;
      SurvivorsAppend(chunks, a[1..], b);
    }
  }

  /** An out-of-range position, such as the -1 padding, contributes nothing. */
  lemma SurvivorsSkipsOutOfRange(chunks: seq<string>, a: seq<int>, j: int, b: seq<int>)
    requires !(0 <= j < |chunks|)
    ensures Survivors(chunks, a + [j] + b) == Survivors(chunks, a + b)
  {
    var sa, sb := Survivors(chunks, a), Survivors(chunks, b);
    assert [j][1..] == [];
    assert Survivors(chunks, [j]) == [];
    SurvivorsAppend(chunks, a, [j]);
    assert Survivors(chunks, a + [j]) == sa;
    SurvivorsAppend(chunks, a + [j], b);
    SurvivorsAppend(chunks, a, b);
  }

  /** When every position is valid, the selection is exactly the indexed
      chunks, in the order of `idx`, repetitions kept. */
  lemma {:induction false} SurvivorsInRange(chunks: seq<string>, idx: seq<int>)
    requires forall k :: 0 <= k < |idx| ==> 0 <= idx[k] < |chunks|
    ensures |Survivors(chunks, idx)| == |idx|
    ensures forall k :: 0 <= k < |idx| ==> Survivors(chunks, idx)[k] == chunks[idx[k]]
  {
    if idx != [] {
      assert forall k :: 0 <= k < |idx[1..]| ==> idx[1..][k] == idx[k + 1];
      SurvivorsInRange(chunks, idx[1..]);
    }
  }

  /** With no valid position the context is empty. */
  lemma {:induction false} NoValidIndex(chunks: seq<string>, idx: seq<int>, maxChars: int)
    requires forall k :: 0 <= k < |idx| ==> !(0 <= idx[k] < |chunks|)
    ensures Survivors(chunks, idx) == []
    ensures GatherContext(chunks, idx, maxChars) == ""
  {
    if idx != [] {
      assert forall k :: 0 <= k < |idx[1..]| ==> idx[1..][k] == idx[k + 1];
      NoValidIndex(chunks, idx[1..], maxChars);
    }
  }

  // ---------------------------------------------------------------------
  // The cut

  /** A context that fits the budget is passed through whole. */
  lemma ContextFits(chunks: seq<string>, idx: seq<int>, maxChars: int)
    requires |Join(Separator, Survivors(chunks, idx))| <= maxChars
    ensures GatherContext(chunks, idx, maxChars) == Join(Separator, Survivors(chunks, idx))
  {
    var joined := Join(Separator, Survivors(chunks, idx));
    assert joined[0..|joined|] == joined;
  }

  /** The length before the cut: the chunks' lengths plus seven characters
      for each separator. */
  lemma ContextLength(chunks: seq<string>, idx: seq<int>, maxChars: int)
    requires maxChars >= 0
    requires Survivors(chunks, idx) != []
    ensures |GatherContext(chunks, idx, maxChars)|
         == Min(maxChars, TotalLength(Survivors(chunks, idx)) + 7 * (|Survivors(chunks, idx)| - 1))
  {
    var pieces := Survivors(chunks, idx);
    JoinLength(Separator, pieces);
  }

  /** The context begins with the first chunk selected: its first
      `max_chars` characters, or the whole chunk when it fits the budget. */
  lemma ContextStartsWithFirst(chunks: seq<string>, idx: seq<int>, maxChars: int)
    requires Survivors(chunks, idx) != []
    requires 0 <= maxChars
    ensures var first := Survivors(chunks, idx)[0];
      if maxChars <= |first| then GatherContext(chunks, idx, maxChars) == first[..maxChars]
      else first <= GatherContext(chunks, idx, maxChars)
  {
    var pieces := Survivors(chunks, idx);
    var joined := Join(Separator, pieces);
    var ctx := GatherContext(chunks, idx, maxChars);
    JoinStartsWithFirst(Separator, pieces);
    SliceFrom(joined, 0, maxChars);
    if maxChars <= |pieces[0]| {
      assert ctx == joined[..maxChars];
    } else {
      assert |ctx| >= |pieces[0]|;
    }
  }

  /** With the default budget of 3500 characters, two selected chunks
      of 2000 characters give 3500 characters: the first chunk, the
      separator and the first 1493 characters of the second. */
  lemma TwoLongChunks(chunks: seq<string>, i: int, j: int)
    requires 0 <= i < |chunks| && 0 <= j < |chunks|
    requires |chunks[i]| == 2000 && |chunks[j]| == 2000
    ensures GatherContext(chunks, [i, j]) == chunks[i] + Separator + chunks[j][..1493]
  {
    assert [i, j][1..] == [j];
    assert [j][1..] == [];
    assert Survivors(chunks, [j]) == [chunks[j]];
    assert Survivors(chunks, [i, j]) == [chunks[i], chunks[j]];
    var joined := chunks[i] + Separator + chunks[j];
    assert [chunks[i], chunks[j]][1..] == [chunks[j]];
    assert Join(Separator, [chunks[i], chunks[j]]) == joined;
    SliceFrom(joined, 0, 3500);
    assert joined[..3500] == chunks[i] + Separator + chunks[j][..1493];
  }
}
